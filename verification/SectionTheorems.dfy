/**
 What the budgeted split of a document guarantees: the ranges tile the text, only a section
 within the budget rolls its subsections in, a heading opens a range exactly when every
 enclosing section is over budget, and breadcrumbs are the enclosing headings.
 */
module SectionTheorems {
  import opened HeadingWalk
  import opened Sections
  import opened Tokenizer

  /** All ranges behind the preamble. */
  function AllRanges(d: Doc): seq<Range> {
    RangesOf(d, 0, |d.hs|, [])
  }

  /** Every section opened in the run of headings closes in it. */
  predicate Closed(hs: seq<Heading>, from: nat, to: nat)
    requires to <= |hs|
  {
    forall k | from <= k < to :: SectionEnd(hs, k) <= to
  }

  lemma SubsectionsAreClosed(hs: seq<Heading>, i: nat)
    requires i < |hs|
    ensures Closed(hs, i + 1, SectionEnd(hs, i))
  {
    hide SectionEnd;
    forall k | i + 1 <= k < SectionEnd(hs, i)
      ensures SectionEnd(hs, k) <= SectionEnd(hs, i)
    {
      NestedEndsWithin(hs, i, k);
    }
  }

  // ----- The ranges tile the document -----

  /** Consecutive ranges from one heading up to another, none empty. */
  predicate Tiles(rs: seq<Range>, from: nat, to: nat) {
    if rs == [] then from == to
    else rs[0].first == from && from < rs[0].last <= to && Tiles(rs[1..], rs[0].last, to)
  }

  lemma {:induction false} TilesConcat(a: seq<Range>, b: seq<Range>, from: nat, mid: nat, to: nat)
    requires Tiles(a, from, mid) && Tiles(b, mid, to) && mid <= to
    ensures Tiles(a + b, from, to)
  {
    if a == [] {
      assert a + b == b;
    } else {
      TilesConcat(a[1..], b, a[0].last, mid, to);
      assert (a + b)[1..] == a[1..] + b;
    }
  }

  lemma {:induction false} SectionTiles(d: Doc, i: nat, ancestors: seq<string>)
    requires i < |d.hs|
    ensures Tiles(Ranges(d, i, ancestors), i, SectionEnd(d.hs, i))
    decreases |d.hs| - i, 0
  {
    hide Splits, SectionEnd;
    var crumb := ancestors + [Segment(d.hs[i])];
    var end := SectionEnd(d.hs, i);
    if Splits(d, i) {
      SubsectionsAreClosed(d.hs, i);
      ListTiles(d, i + 1, end, crumb);
      TilesConcat([Range(i, i + 1, crumb)], RangesOf(d, i + 1, end, crumb), i, i + 1, end);
    }
  }

  lemma {:induction false} ListTiles(d: Doc, j: nat, end: nat, ancestors: seq<string>)
    requires j <= end <= |d.hs| && Closed(d.hs, j, end)
    ensures Tiles(RangesOf(d, j, end, ancestors), j, end)
    decreases |d.hs| - j, 1
  {
    hide Ranges, SectionEnd;
    if j < end {
      var next := SectionEnd(d.hs, j);
      SectionTiles(d, j, ancestors);
      ListTiles(d, next, end, ancestors);
      TilesConcat(Ranges(d, j, ancestors), RangesOf(d, next, end, ancestors), j, next, end);
    }
  }

  /** The text of the ranges, one behind the other. */
  function TextOfRanges(d: Doc, rs: seq<Range>): string {
    if rs == [] then "" else Slice(d.text, ByteAt(d, rs[0].first), ByteAt(d, rs[0].last)) + TextOfRanges(d, rs[1..])
  }

  lemma {:induction false} TiledText(d: Doc, rs: seq<Range>, from: nat)
    requires d.Valid() && Tiles(rs, from, |d.hs|) && from <= |d.hs|
    ensures TextOfRanges(d, rs) == d.text[ByteAt(d, from)..]
  {
    if rs != [] {
      var mid := rs[0].last;
      TiledText(d, rs[1..], mid);
      assert ByteAt(d, from) <= ByteAt(d, mid) <= |d.text|;
      assert d.text[ByteAt(d, from)..] == d.text[ByteAt(d, from)..ByteAt(d, mid)] + d.text[ByteAt(d, mid)..];
    }
  }

  /** The preamble and the ranges, in order, are the document: no byte is lost, repeated or moved. */
  lemma RangesTileTheDocument(d: Doc)
    requires d.Valid()
    ensures Tiles(AllRanges(d), 0, |d.hs|)
    ensures Slice(d.text, 0, ByteAt(d, 0)) + TextOfRanges(d, AllRanges(d)) == d.text
  {
    hide SectionEnd, TextOfRanges, RangesOf;
    ListTiles(d, 0, |d.hs|, []);
    TiledText(d, AllRanges(d), 0);
    assert d.text[..ByteAt(d, 0)] + d.text[ByteAt(d, 0)..] == d.text;
  }

  // ----- What a range holds -----

  /** A range of two or more headings is one whole section within the budget. */
  predicate RollsUpWithin(d: Doc, r: Range) {
    r.last >= r.first + 2 ==> r.first < |d.hs| && r.last == SectionEnd(d.hs, r.first) && Fits(d, r.first)
  }

  predicate AllRollUpWithin(d: Doc, rs: seq<Range>) {
    forall k | 0 <= k < |rs| :: RollsUpWithin(d, rs[k])
  }

  lemma {:induction false} SectionRollsUp(d: Doc, i: nat, ancestors: seq<string>)
    requires i < |d.hs|
    ensures AllRollUpWithin(d, Ranges(d, i, ancestors))
    decreases |d.hs| - i, 0
  {
    hide Fits, SectionEnd;
    if Splits(d, i) {
      ListRollsUp(d, i + 1, SectionEnd(d.hs, i), ancestors + [Segment(d.hs[i])]);
    }
  }

  lemma {:induction false} ListRollsUp(d: Doc, j: nat, end: nat, ancestors: seq<string>)
    requires end <= |d.hs|
    ensures AllRollUpWithin(d, RangesOf(d, j, end, ancestors))
    decreases |d.hs| - j, 1
  {
    hide RollsUpWithin, Ranges, SectionEnd;
    if j < end {
      SectionRollsUp(d, j, ancestors);
      ListRollsUp(d, SectionEnd(d.hs, j), end, ancestors);
    }
  }

  /** A chunk that holds two or more headings is a whole section and keeps to the token budget. */
  lemma RolledUpChunksFit(d: Doc, k: nat)
    requires k < |AllRanges(d)| && AllRanges(d)[k].last >= AllRanges(d)[k].first + 2
    ensures var r := AllRanges(d)[k];
      r.first < |d.hs| && r.last == SectionEnd(d.hs, r.first) &&
      forall c | c in ChunkOf(d, r) :: c.tokens <= d.budget
  {
    hide SectionEnd, RangesOf, EstimateTokens;
    ListRollsUp(d, 0, |d.hs|, []);
    assert RollsUpWithin(d, AllRanges(d)[k]);
  }

  // ----- Which headings open a range -----

  predicate Opens(rs: seq<Range>, j: nat) {
    exists k | 0 <= k < |rs| :: rs[k].first == j
  }

  lemma OpensConcat(a: seq<Range>, b: seq<Range>, j: nat)
    ensures Opens(a + b, j) <==> Opens(a, j) || Opens(b, j)
  {
    if Opens(a, j) {
      var k :| 0 <= k < |a| && a[k].first == j;
      assert (a + b)[k].first == j;
    }
    if Opens(b, j) {
      var k :| 0 <= k < |b| && b[k].first == j;
      assert (a + b)[|a| + k].first == j;
    }
  }

  lemma {:induction false} TilesBound(rs: seq<Range>, from: nat, to: nat, j: nat)
    requires Tiles(rs, from, to) && Opens(rs, j)
    ensures from <= j < to
  {
    if rs[0].first != j {
      assert Opens(rs[1..], j) by {
        var k :| 0 <= k < |rs| && rs[k].first == j;
        assert rs[1..][k - 1].first == j;
      }
      TilesBound(rs[1..], rs[0].last, to, j);
    }
  }

  /** Every section from heading `from` on around heading `j` is over budget. */
  predicate EnclosedOverBudget(d: Doc, from: nat, j: nat)
    requires j < |d.hs|
  {
    forall a | from <= a < j && j < SectionEnd(d.hs, a) :: !Fits(d, a)
  }

  lemma {:induction false} SectionOpens(d: Doc, i: nat, ancestors: seq<string>, j: nat)
    requires i < |d.hs| && i <= j < SectionEnd(d.hs, i)
    ensures Opens(Ranges(d, i, ancestors), j) <==> EnclosedOverBudget(d, i, j)
    decreases |d.hs| - i, 0
  {
    hide Fits, SectionEnd, RangesOf;
    var crumb := ancestors + [Segment(d.hs[i])];
    var end := SectionEnd(d.hs, i);
    if Splits(d, i) {
      var head := [Range(i, i + 1, crumb)];
      OpensConcat(head, RangesOf(d, i + 1, end, crumb), j);
      SubsectionsAreClosed(d.hs, i);
      if j == i {
        assert head[0].first == j;
      } else {
        ListOpens(d, i + 1, end, crumb, j);
        assert !Opens(head, j);
      }
    } else if j == i {
      assert Ranges(d, i, ancestors)[0].first == j;
    }
  }

  lemma {:induction false} ListOpens(d: Doc, from: nat, end: nat, ancestors: seq<string>, j: nat)
    requires from <= j < end <= |d.hs| && Closed(d.hs, from, end)
    ensures Opens(RangesOf(d, from, end, ancestors), j) <==> EnclosedOverBudget(d, from, j)
    decreases |d.hs| - from, 1
  {
    hide Fits, SectionEnd, Ranges, Tiles;
    var next := SectionEnd(d.hs, from);
    OpensConcat(Ranges(d, from, ancestors), RangesOf(d, next, end, ancestors), j);
    if j < next {
      SectionOpens(d, from, ancestors, j);
      ListTiles(d, next, end, ancestors);
      if Opens(RangesOf(d, next, end, ancestors), j) {
        TilesBound(RangesOf(d, next, end, ancestors), next, end, j);
      }
    } else {
      ListOpens(d, next, end, ancestors, j);
      SectionTiles(d, from, ancestors);
      if Opens(Ranges(d, from, ancestors), j) {
        TilesBound(Ranges(d, from, ancestors), from, next, j);
      }
      forall a | from <= a < next
        ensures SectionEnd(d.hs, a) <= j
      {
        if a > from {
          NestedEndsWithin(d.hs, from, a);
        }
      }
    }
  }

  /** Heading `j` opens a range exactly when every section around it is over budget. */
  lemma OpensIffEnclosersOverBudget(d: Doc, j: nat)
    requires j < |d.hs|
    ensures Opens(AllRanges(d), j) <==> EnclosedOverBudget(d, 0, j)
  {
    hide SectionEnd, Ranges, RangesOf, Fits;
    ListOpens(d, 0, |d.hs|, [], j);
  }

  /** A larger budget only removes range boundaries. */
  lemma LargerBudgetOnlyMerges(d: Doc, budget: nat, j: nat)
    requires d.budget <= budget && j < |d.hs| && Opens(AllRanges(d.(budget := budget)), j)
    ensures Opens(AllRanges(d), j)
  {
    hide SectionEnd, RangesOf;
    var larger := d.(budget := budget);
    OpensIffEnclosersOverBudget(larger, j);
    OpensIffEnclosersOverBudget(d, j);
    forall a | 0 <= a < j && j < SectionEnd(d.hs, a)
      ensures !Fits(d, a)
    {
      assert !Fits(larger, a);
    }
  }

  // ----- Breadcrumbs -----

  /** The headings before `n` whose section reaches over heading `j`, in document order. */
  function Enclosing(hs: seq<Heading>, n: nat, j: nat): (r: seq<nat>)
    requires n <= |hs|
    ensures forall x | 0 <= x < |r| :: r[x] < n
  {
    if n == 0 then [] else Enclosing(hs, n - 1, j) + if j < SectionEnd(hs, n - 1) then [n - 1] else []
  }

  lemma {:induction false} EnclosingMember(hs: seq<Heading>, n: nat, j: nat, a: nat)
    requires n <= |hs|
    ensures a in Enclosing(hs, n, j) <==> a < n && j < SectionEnd(hs, a)
  {
    hide SectionEnd;
    if n > 0 {
      EnclosingMember(hs, n - 1, j, a);
    }
  }

  lemma {:induction false} EnclosingAscends(hs: seq<Heading>, n: nat, j: nat, x: nat, y: nat)
    requires n <= |hs| && x < y < |Enclosing(hs, n, j)|
    ensures Enclosing(hs, n, j)[x] < Enclosing(hs, n, j)[y]
  {
    hide SectionEnd;
    if y < |Enclosing(hs, n - 1, j)| {
      EnclosingAscends(hs, n - 1, j, x, y);
    }
  }

  /** The list is exactly the enclosing headings, in order. */
  lemma EnclosingIsExact(hs: seq<Heading>, n: nat, j: nat)
    requires n <= |hs|
    ensures forall a: nat :: a in Enclosing(hs, n, j) <==> a < n && j < SectionEnd(hs, a)
    ensures forall x, y | 0 <= x < y < |Enclosing(hs, n, j)| :: Enclosing(hs, n, j)[x] < Enclosing(hs, n, j)[y]
  {
    hide SectionEnd, Enclosing;
    forall a: nat
      ensures a in Enclosing(hs, n, j) <==> a < n && j < SectionEnd(hs, a)
    {
      EnclosingMember(hs, n, j, a);
    }
    forall x, y | 0 <= x < y < |Enclosing(hs, n, j)|
      ensures Enclosing(hs, n, j)[x] < Enclosing(hs, n, j)[y]
    {
      EnclosingAscends(hs, n, j, x, y);
    }
  }

  function Segments(hs: seq<Heading>, which: seq<nat>): (r: seq<string>)
    requires forall x | 0 <= x < |which| :: which[x] < |hs|
    ensures |r| == |which| && forall x | 0 <= x < |r| :: r[x] == Segment(hs[which[x]])
  {
    seq(|which|, x requires 0 <= x < |which| => Segment(hs[which[x]]))
  }

  /** The segments of the headings around `j`, outermost first. */
  function Ancestry(hs: seq<Heading>, j: nat): seq<string>
    requires j <= |hs|
  {
    Segments(hs, Enclosing(hs, j, j))
  }

  predicate CrumbsAreAncestry(d: Doc, rs: seq<Range>) {
    forall k | 0 <= k < |rs| ::
      rs[k].first < |d.hs| && rs[k].crumb == Ancestry(d.hs, rs[k].first) + [Segment(d.hs[rs[k].first])]
  }

  /** A section that reaches over heading `j` reaches the end of the run `j` is listed in. */
  predicate Outlive(hs: seq<Heading>, j: nat, end: nat)
    requires j <= |hs|
  {
    forall a | 0 <= a < j && j < SectionEnd(hs, a) :: end <= SectionEnd(hs, a)
  }

  lemma {:induction false} SameEnclosers(hs: seq<Heading>, n: nat, j: nat, k: nat)
    requires n <= |hs| && forall a | 0 <= a < n :: j < SectionEnd(hs, a) <==> k < SectionEnd(hs, a)
    ensures Enclosing(hs, n, j) == Enclosing(hs, n, k)
  {
    hide SectionEnd;
    if n > 0 {
      SameEnclosers(hs, n - 1, j, k);
    }
  }

  lemma {:induction false} NoMoreEnclosers(hs: seq<Heading>, m: nat, n: nat, j: nat)
    requires m <= n <= |hs| && forall a | m <= a < n :: SectionEnd(hs, a) <= j
    ensures Enclosing(hs, n, j) == Enclosing(hs, m, j)
  {
    hide SectionEnd;
    if n > m {
      NoMoreEnclosers(hs, m, n - 1, j);
    }
  }

  /** The first subsection of `i` has the ancestors of `i`, and `i`. */
  lemma AncestryOfChild(hs: seq<Heading>, i: nat)
    requires i + 1 < |hs| && i + 1 < SectionEnd(hs, i)
    ensures Ancestry(hs, i + 1) == Ancestry(hs, i) + [Segment(hs[i])]
    ensures Outlive(hs, i + 1, SectionEnd(hs, i))
  {
    hide SectionEnd;
    forall a | 0 <= a < i
      ensures i < SectionEnd(hs, a) ==> SectionEnd(hs, i) <= SectionEnd(hs, a)
    {
      if i < SectionEnd(hs, a) {
        NestedEndsWithin(hs, a, i);
      }
    }
    SameEnclosers(hs, i, i, i + 1);
  }

  /** The next section of a run has the ancestors of the one before it. */
  lemma AncestryOfSibling(hs: seq<Heading>, j: nat, end: nat)
    requires j < |hs| && end <= |hs| && Outlive(hs, j, end) && SectionEnd(hs, j) < end
    ensures Ancestry(hs, SectionEnd(hs, j)) == Ancestry(hs, j)
    ensures Outlive(hs, SectionEnd(hs, j), end)
  {
    hide SectionEnd;
    var next := SectionEnd(hs, j);
    forall a | j <= a < next
      ensures SectionEnd(hs, a) <= next
    {
      if a > j {
        NestedEndsWithin(hs, j, a);
      }
    }
    NoMoreEnclosers(hs, j, next, next);
    SameEnclosers(hs, j, j, next);
  }

  lemma {:induction false} SectionCrumbs(d: Doc, i: nat)
    requires i < |d.hs|
    ensures CrumbsAreAncestry(d, Ranges(d, i, Ancestry(d.hs, i)))
    decreases |d.hs| - i, 0
  {
    hide Fits, SectionEnd, Ancestry, Segment, RangesOf;
    if Splits(d, i) {
      AncestryOfChild(d.hs, i);
      ListCrumbs(d, i + 1, SectionEnd(d.hs, i));
    }
  }

  lemma {:induction false} ListCrumbs(d: Doc, j: nat, end: nat)
    requires j <= end <= |d.hs| && Outlive(d.hs, j, end)
    ensures CrumbsAreAncestry(d, RangesOf(d, j, end, Ancestry(d.hs, j)))
    decreases |d.hs| - j, 1
  {
    hide SectionEnd, Ancestry, Segment, Ranges, Outlive;
    if j < end {
      SectionCrumbs(d, j);
      if SectionEnd(d.hs, j) < end {
        AncestryOfSibling(d.hs, j, end);
        ListCrumbs(d, SectionEnd(d.hs, j), end);
      }
    }
  }

  /** Every breadcrumb names the enclosing headings of its range, outermost first, and then its own. */
  lemma BreadcrumbsNameTheEnclosers(d: Doc)
    ensures CrumbsAreAncestry(d, AllRanges(d))
  {
    hide SectionEnd, Segment, Ranges, RangesOf;
    assert Ancestry(d.hs, 0) == [];
    ListCrumbs(d, 0, |d.hs|);
  }

  /** Along a breadcrumb the levels strictly increase. */
  lemma EnclosersDescend(hs: seq<Heading>, j: nat)
    requires j < |hs|
    ensures var chain := Enclosing(hs, j, j) + [j];
      forall x, y | 0 <= x < y < |chain| :: chain[x] < chain[y] < |hs| && hs[chain[x]].level < hs[chain[y]].level
  {
    EnclosingIsExact(hs, j, j);
    var chain := Enclosing(hs, j, j) + [j];
    forall x, y | 0 <= x < y < |chain|
      ensures chain[x] < chain[y] < |hs| && hs[chain[x]].level < hs[chain[y]].level
    {
      assert chain[x] in Enclosing(hs, j, j);
      assert y < |chain| - 1 ==> chain[y] in Enclosing(hs, j, j);
      assert chain[x] < chain[y] < SectionEnd(hs, chain[x]);
    }
  }
}
