/**
 Token-level span scores of src/relevance.rs: line weights from the indexed chunks, and how
 much of the expected lines a ranking retrieved. A map from files to sets of lines is one set
 of lines that carry their file; ratios are exact reals.
 */
module TokenSpans {
  import opened Options
  import opened Anchors
  import opened Chunks
  import opened TextLines
  import opened Tokenizer

  datatype LineAt = LineAt(file: string, line: nat)

  // ----- Line weights -----

  /** The text a chunk has for a line. */
  function TextAt(c: Chunk, at: LineAt): Option<string> {
    if c.file == at.file && c.startLine <= at.line < c.startLine + |Lines(c.content)|
    then Some(Lines(c.content)[at.line - c.startLine])
    else None
  }

  /** The text of a line in the first chunk that covers it. */
  function FirstText(chunks: seq<Chunk>, at: LineAt): Option<string> {
    if chunks == [] then None
    else
      match FirstText(chunks[..|chunks| - 1], at)
      case Some(t) => Some(t)
      case None => TextAt(chunks[|chunks| - 1], at)
  }

  /** A line's weight; one where no chunk has the line. */
  function Weight(weights: map<LineAt, nat>, at: LineAt): nat {
    if at in weights then weights[at] else 1
  }

  /** Exactly the lines with a text, each weighing its estimate. */
  ghost predicate WeighsFirstTexts(weights: map<LineAt, nat>, chunks: seq<Chunk>) {
    forall at :: (at in weights <==> FirstText(chunks, at).Some?) &&
      (at in weights ==> weights[at] == EstimateTokens(FirstText(chunks, at).value))
  }

  method FromChunks(chunks: seq<Chunk>) returns (weights: map<LineAt, nat>)
    ensures WeighsFirstTexts(weights, chunks)
  {
    hide Lines, EstimateTokens;
    weights := map[];
    for n := 0 to |chunks|
      invariant WeighsFirstTexts(weights, chunks[..n])
    {
      var c := chunks[n];
      var lines := Lines(c.content);
      ghost var before := weights;
      assert chunks[..n + 1][..n] == chunks[..n];
      for i := 0 to |lines|
        invariant forall at :: at in weights <==>
          at in before || (at.file == c.file && c.startLine <= at.line < c.startLine + i)
        invariant forall at | at in weights ::
          weights[at] == if at in before then before[at] else EstimateTokens(lines[at.line - c.startLine])
      {
        var at := LineAt(c.file, c.startLine + i);
        if at !in weights {
          weights := weights[at := EstimateTokens(lines[i])];
        }
      }
    }
    assert chunks[..|chunks|] == chunks;
  }

  lemma WeightsArePositive(weights: map<LineAt, nat>, chunks: seq<Chunk>)
    requires WeighsFirstTexts(weights, chunks)
    ensures forall at :: Weight(weights, at) >= 1
  {
    hide FirstText;
  }

  // ----- Line sets and their mass -----

  function Span(file: string, lo: nat, hi: nat): set<LineAt> {
    set l | lo <= l <= hi :: LineAt(file, l)
  }

  /** The lines a ranged anchor pins; none without a range or a path. */
  function Pinned(a: Anchor): set<LineAt> {
    if a.range.Some? && a.path.Some? then Span(a.path.value, a.range.value.lo, a.range.value.hi) else {}
  }

  function Relevant(expected: seq<Anchor>): set<LineAt> {
    if expected == [] then {} else Relevant(expected[..|expected| - 1]) + Pinned(expected[|expected| - 1])
  }

  function Retrieved(results: seq<Chunk>): set<LineAt> {
    if results == [] then {}
    else
      var c := results[|results| - 1];
      Retrieved(results[..|results| - 1]) + Span(c.file, c.startLine, c.endLine)
  }

  ghost function Mass(lines: set<LineAt>, weights: map<LineAt, nat>): nat {
    if lines == {} then 0
    else
      var at :| at in lines;
      Weight(weights, at) + Mass(lines - {at}, weights)
  }

  lemma {:induction false} MassRemove(lines: set<LineAt>, weights: map<LineAt, nat>, at: LineAt)
    requires at in lines
    ensures Mass(lines, weights) == Weight(weights, at) + Mass(lines - {at}, weights)
  {
    hide Weight;
    var x :| x in lines && Mass(lines, weights) == Weight(weights, x) + Mass(lines - {x}, weights);
    if x != at {
      MassRemove(lines - {x}, weights, at);
      MassRemove(lines - {at}, weights, x);
      assert lines - {x} - {at} == lines - {at} - {x};
    }
  }

  lemma {:induction false} MassDisjoint(a: set<LineAt>, b: set<LineAt>, weights: map<LineAt, nat>)
    requires a !! b
    ensures Mass(a + b, weights) == Mass(a, weights) + Mass(b, weights)
  {
    hide Weight;
    if a == {} {
      assert a + b == b;
    } else {
      var at :| at in a;
      MassDisjoint(a - {at}, b, weights);
      MassRemove(a, weights, at);
      MassRemove(a + b, weights, at);
      assert a + b - {at} == (a - {at}) + b;
    }
  }

  /** The mass of a part is at most that of the whole, and less when something of weight is missing. */
  lemma MassOfPart(a: set<LineAt>, b: set<LineAt>, weights: map<LineAt, nat>)
    requires a <= b && forall at :: Weight(weights, at) >= 1
    ensures Mass(a, weights) <= Mass(b, weights)
    ensures Mass(a, weights) == Mass(b, weights) <==> a == b
  {
    MassDisjoint(a, b - a, weights);
    assert a + (b - a) == b;
    if a != b {
      var at :| at in b - a;
      MassRemove(b - a, weights, at);
    }
  }

  /** What both sets weigh together: overlap and union make up the two masses. */
  lemma MassOfUnion(a: set<LineAt>, b: set<LineAt>, weights: map<LineAt, nat>)
    ensures Mass(a + b, weights) + Mass(a * b, weights) == Mass(a, weights) + Mass(b, weights)
  {
    hide Mass;
    MassDisjoint(a, b - a, weights);
    assert a + (b - a) == a + b;
    MassDisjoint(a * b, b - a, weights);
    assert a * b + (b - a) == b;
  }

  method TokenMass(lines: set<LineAt>, weights: map<LineAt, nat>) returns (mass: nat)
    ensures mass == Mass(lines, weights)
  {
    mass := 0;
    var left := lines;
    while left != {}
      invariant left <= lines && mass + Mass(left, weights) == Mass(lines, weights)
      decreases left
    {
      var at :| at in left;
      MassRemove(left, weights, at);
      mass := mass + Weight(weights, at);
      left := left - {at};
    }
  }

  // ----- Scores -----

  datatype TokenScore = TokenScore(precision: real, recall: real, iou: real)

  function Ratio(num: nat, den: nat): real {
    if den == 0 then 0.0 else num as real / den as real
  }

  ghost function ScoreOf(relevant: set<LineAt>, retrieved: set<LineAt>, weights: map<LineAt, nat>): TokenScore {
    var overlap := Mass(relevant * retrieved, weights);
    TokenScore(Ratio(overlap, Mass(retrieved, weights)), Ratio(overlap, Mass(relevant, weights)),
               Ratio(overlap, Mass(relevant + retrieved, weights)))
  }

  function Top(results: seq<Chunk>, k: nat): (top: seq<Chunk>)
    ensures top <= results && |top| <= k && (|top| == k || top == results)
  {
    if |results| < k then results else results[..k]
  }

  predicate PinsLines(a: Anchor) {
    a.range.Some? && a.path.Some?
  }

  /** None without an anchor that pins lines; else the scores of the two sets of lines. */
  method ScoreTokens(results: seq<Chunk>, expected: seq<Anchor>, k: nat, weights: map<LineAt, nat>)
    returns (score: Option<TokenScore>)
    ensures score.None? <==> forall i | 0 <= i < |expected| :: !PinsLines(expected[i])
    ensures score.Some? ==> score.value == ScoreOf(Relevant(expected), Retrieved(Top(results, k)), weights)
  {
    hide Mass, Span;
    var relevant: set<LineAt> := {};
    var ranged := false;
    for i := 0 to |expected|
      invariant relevant == Relevant(expected[..i])
      invariant ranged <==> exists j | 0 <= j < i :: PinsLines(expected[j])
    {
      assert expected[..i + 1][..i] == expected[..i];
      if PinsLines(expected[i]) {
        ranged := true;
      }
      relevant := relevant + Pinned(expected[i]);
    }
    assert expected[..|expected|] == expected;
    if !ranged {
      return None;
    }
    var top := Top(results, k);
    var retrieved: set<LineAt> := {};
    for i := 0 to |top|
      invariant retrieved == Retrieved(top[..i])
    {
      assert top[..i + 1][..i] == top[..i];
      retrieved := retrieved + Span(top[i].file, top[i].startLine, top[i].endLine);
    }
    assert top[..|top|] == top;
    var relevantMass := TokenMass(relevant, weights);
    var retrievedMass := TokenMass(retrieved, weights);
    var overlapMass := TokenMass(relevant * retrieved, weights);
    MassOfUnion(relevant, retrieved, weights);
    var unionMass: nat := relevantMass + retrievedMass - overlapMass;
    score := Some(TokenScore(Ratio(overlapMass, retrievedMass), Ratio(overlapMass, relevantMass),
      Ratio(overlapMass, unionMass)));
  }

  lemma RatioOfPart(num: nat, den: nat)
    requires num <= den
    ensures 0.0 <= Ratio(num, den) <= 1.0
    ensures den > 0 ==> (Ratio(num, den) == 1.0 <==> num == den)
  {
  }

  lemma RatioOfMore(num: nat, den: nat, more: nat)
    requires 0 < den <= more
    ensures Ratio(num, more) <= Ratio(num, den)
  {
    var n, d, m := num as real, den as real, more as real;
    assert n * d <= n * m;
    assert n / m <= n / d by {
      assert (n / m) * m == n && (n / d) * d == n;
    }
  }

  /**
   For expected lines, every score lies between 0 and 1 and the overlap ratio is the least;
   recall is full exactly when all expected lines came back, precision when nothing else did,
   and the overlap ratio is full exactly when the two sets are one.
   */
  lemma ScoresMeanCoverage(relevant: set<LineAt>, retrieved: set<LineAt>, weights: map<LineAt, nat>)
    requires relevant != {} && forall at :: Weight(weights, at) >= 1
    ensures var s := ScoreOf(relevant, retrieved, weights);
      && 0.0 <= s.iou <= s.recall <= 1.0 && s.iou <= s.precision <= 1.0
      && (s.recall == 1.0 <==> relevant <= retrieved)
      && (s.precision == 1.0 <==> retrieved != {} && retrieved <= relevant)
      && (s.iou == 1.0 <==> relevant == retrieved)
  {
    hide Weight, Ratio, Mass;
    var both, all := relevant * retrieved, relevant + retrieved;
    EmptyMass(weights);
    MassOfPart({}, relevant, weights);
    MassOfPart({}, retrieved, weights);
    MassOfPart(both, relevant, weights);
    MassOfPart(both, retrieved, weights);
    MassOfPart(relevant, all, weights);
    MassOfPart(retrieved, all, weights);
    MassOfPart(both, all, weights);
    var overlap := Mass(both, weights);
    RatioOfPart(overlap, Mass(relevant, weights));
    RatioOfPart(overlap, Mass(retrieved, weights));
    RatioOfPart(overlap, Mass(all, weights));
    RatioOfMore(overlap, Mass(relevant, weights), Mass(all, weights));
    if retrieved == {} {
      assert both == {};
      NoOverlap(Mass(all, weights));
      NoOverlap(Mass(retrieved, weights));
    } else {
      RatioOfMore(overlap, Mass(retrieved, weights), Mass(all, weights));
    }
    assert relevant <= retrieved <==> both == relevant;
    assert retrieved <= relevant <==> both == retrieved;
    assert relevant == retrieved <==> both == all;
  }

  lemma EmptyMass(weights: map<LineAt, nat>)
    ensures Mass({}, weights) == 0
  {
  }

  lemma NoOverlap(den: nat)
    ensures Ratio(0, den) == 0.0
  {
  }

  // ----- Matching -----

  /** A result satisfies every facet of an anchor, lines by overlap. */
  predicate Matches(a: Anchor, c: Chunk) {
    && (a.path.Some? ==> c.file == a.path.value)
    && (a.kind.Some? ==> c.kind == a.kind.value)
    && (a.range.Some? ==> c.endLine >= a.range.value.lo && c.startLine <= a.range.value.hi)
  }

  /** For a printable anchor that pins lines, matching is sharing the kind and a line. */
  lemma MatchesIffSharesLine(a: Anchor, c: Chunk)
    requires Printable(a) && PinsLines(a) && c.startLine <= c.endLine
    ensures Matches(a, c) <==>
      (a.kind.Some? ==> c.kind == a.kind.value) && Pinned(a) * Span(c.file, c.startLine, c.endLine) != {}
  {
    hide RangeLike;
    var lo, hi := a.range.value.lo, a.range.value.hi;
    var first := if c.startLine < lo then lo else c.startLine;
    if Matches(a, c) {
      assert LineAt(c.file, first) in Pinned(a) * Span(c.file, c.startLine, c.endLine);
    }
    if at :| at in Pinned(a) * Span(c.file, c.startLine, c.endLine) {
      assert lo <= at.line <= hi && c.startLine <= at.line <= c.endLine;
    }
  }

  // ----- In the terms of lines -----

  /** A line is expected when some ranged anchor of its file spans it. */
  lemma {:induction false} RelevantIs(expected: seq<Anchor>, at: LineAt)
    ensures at in Relevant(expected) <==> exists i | 0 <= i < |expected| ::
      && expected[i].range.Some? && expected[i].path == Some(at.file)
      && expected[i].range.value.lo <= at.line <= expected[i].range.value.hi
  {
    if expected != [] {
      RelevantIs(expected[..|expected| - 1], at);
    }
  }

  /** A line is retrieved when some result of its file spans it. */
  lemma {:induction false} RetrievedIs(results: seq<Chunk>, at: LineAt)
    ensures at in Retrieved(results) <==> exists i | 0 <= i < |results| ::
      results[i].file == at.file && results[i].startLine <= at.line <= results[i].endLine
  {
    if results != [] {
      RetrievedIs(results[..|results| - 1], at);
    }
  }

  /** A line's text is that in the first chunk that has the line. */
  lemma {:induction false} FirstTextIs(chunks: seq<Chunk>, at: LineAt, i: nat)
    requires i < |chunks| && TextAt(chunks[i], at).Some?
    requires forall k | 0 <= k < i :: TextAt(chunks[k], at).None?
    ensures FirstText(chunks, at) == TextAt(chunks[i], at)
  {
    hide TextAt;
    if i < |chunks| - 1 {
      FirstTextIs(chunks[..|chunks| - 1], at, i);
    } else {
      NoTextBefore(chunks[..i], at);
    }
  }

  lemma {:induction false} NoTextBefore(chunks: seq<Chunk>, at: LineAt)
    requires forall k | 0 <= k < |chunks| :: TextAt(chunks[k], at).None?
    ensures FirstText(chunks, at) == None
  {
    hide TextAt;
    if chunks != [] {
      NoTextBefore(chunks[..|chunks| - 1], at);
    }
  }

  /** A line weighs a quarter of its text's bytes, at least one, and one where no chunk has it. */
  lemma WeightIs(weights: map<LineAt, nat>, chunks: seq<Chunk>, at: LineAt)
    requires WeighsFirstTexts(weights, chunks)
    ensures Weight(weights, at) ==
      match FirstText(chunks, at)
      case None => 1
      case Some(t) => if |t| < 4 then 1 else |t| / 4
  {
    hide FirstText;
  }

  /** One line weighs its weight; with `MassRemove` this is the sum over any set of lines. */
  lemma MassOfOne(weights: map<LineAt, nat>, at: LineAt)
    ensures Mass({at}, weights) == Weight(weights, at)
  {
    MassRemove({at}, weights, at);
    assert {at} - {at} == {};
    EmptyMass(weights);
  }

  /** The shares: of what was retrieved, of what was expected, of both together. */
  lemma ScoresAreShares(relevant: set<LineAt>, retrieved: set<LineAt>, weights: map<LineAt, nat>)
    ensures var s := ScoreOf(relevant, retrieved, weights);
      var overlap := Mass(relevant * retrieved, weights) as real;
      && (Mass(retrieved, weights) > 0 ==> s.precision * Mass(retrieved, weights) as real == overlap)
      && (Mass(relevant, weights) > 0 ==> s.recall * Mass(relevant, weights) as real == overlap)
      && (Mass(relevant + retrieved, weights) > 0 ==> s.iou * Mass(relevant + retrieved, weights) as real == overlap)
      && (Mass(retrieved, weights) == 0 ==> s.precision == 0.0) && (Mass(relevant, weights) == 0 ==> s.recall == 0.0)
  {
    hide Mass;
  }

  /** A chunk has the lines of its content, counted from its start line in its file, and no others. */
  lemma TextAtIs(c: Chunk, at: LineAt)
    ensures forall i | 0 <= i < |Lines(c.content)| ::
      TextAt(c, LineAt(c.file, c.startLine + i)) == Some(Lines(c.content)[i])
    ensures at.file != c.file || at.line < c.startLine || at.line >= c.startLine + |Lines(c.content)| ==>
      TextAt(c, at) == None
  {
    hide Lines;
    var n := |Lines(c.content)|;
    forall i | 0 <= i < n
      ensures TextAt(c, LineAt(c.file, c.startLine + i)) == Some(Lines(c.content)[i])
    {
      TextOfLine(c, i);
    }
  }

  lemma TextOfLine(c: Chunk, i: nat)
    requires i < |Lines(c.content)|
    ensures TextAt(c, LineAt(c.file, c.startLine + i)) == Some(Lines(c.content)[i])
  {
    hide Lines;
  }
}
