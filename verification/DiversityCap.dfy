/**
 The greedy per-file cap of src/retriever.rs: walk the ranking, keep what the file's quota
 and `top_k` allow. Its choice is the best any selection under the same limits can make.
 */
module DiversityCap {
  import opened RankOrder

  const MAX_CHUNKS_PER_FILE := 3

  /** The file of a document, `files` listing them by index. */
  function FileOf(files: seq<string>, doc: nat): string {
    if doc < |files| then files[doc] else ""
  }

  function Files(files: seq<string>, s: seq<Scored>): (r: seq<string>)
    ensures |r| == |s| && forall i | 0 <= i < |s| :: r[i] == FileOf(files, s[i].doc)
  {
    seq(|s|, i requires 0 <= i < |s| => FileOf(files, s[i].doc))
  }

  /** How many elements stand in file `f`. */
  function InFile(files: seq<string>, s: seq<Scored>, f: string): nat {
    multiset(Files(files, s))[f]
  }

  /** Positions kept among the first `n` of the ranking. */
  function Kept(files: seq<string>, ranked: seq<Scored>, topK: nat, n: nat): (r: seq<nat>)
    requires n <= |ranked|
    ensures |r| <= n && forall i | 0 <= i < |r| :: r[i] < n
  {
    if n == 0 then []
    else
      var r := Kept(files, ranked, topK, n - 1);
      var file := FileOf(files, ranked[n - 1].doc);
      if |r| < topK && InFile(files, At(ranked, r), file) < MAX_CHUNKS_PER_FILE then r + [n - 1] else r
  }

  /** The elements at the given positions. */
  function At(ranked: seq<Scored>, positions: seq<nat>): (r: seq<Scored>)
    requires forall i | 0 <= i < |positions| :: positions[i] < |ranked|
    ensures |r| == |positions| && forall i | 0 <= i < |r| :: r[i] == ranked[positions[i]]
  {
    seq(|positions|, i requires 0 <= i < |positions| => ranked[positions[i]])
  }

  /** What the cap keeps of a ranking. */
  function Cap(files: seq<string>, ranked: seq<Scored>, topK: nat): seq<Scored> {
    At(ranked, Kept(files, ranked, topK, |ranked|))
  }

  lemma FilesAppend(files: seq<string>, s: seq<Scored>, x: Scored)
    ensures Files(files, s + [x]) == Files(files, s) + [FileOf(files, x.doc)]
    ensures forall f :: InFile(files, s + [x], f) == InFile(files, s, f) + if f == FileOf(files, x.doc) then 1 else 0
  {
    assert Files(files, s + [x]) == Files(files, s) + [FileOf(files, x.doc)];
  }

  lemma AtAppend(ranked: seq<Scored>, positions: seq<nat>, p: nat)
    requires p < |ranked| && forall i | 0 <= i < |positions| :: positions[i] < |ranked|
    ensures At(ranked, positions + [p]) == At(ranked, positions) + [ranked[p]]
  {
  }

  /** The loop over the ranking, with its map of counts per file. */
  method CapLoop(files: seq<string>, ranked: seq<Scored>, topK: nat) returns (kept: seq<Scored>)
    ensures kept == Cap(files, ranked, topK)
  {
    hide InFile;
    kept := [];
    var perFile: map<string, nat> := map[];
    EmptyFiles(files);
    assert At(ranked, []) == [];
    for n := 0 to |ranked|
      invariant kept == At(ranked, Kept(files, ranked, topK, n))
      invariant forall f :: (if f in perFile then perFile[f] else 0) == InFile(files, kept, f)
    {
      if |kept| >= topK {
        KeptStops(files, ranked, topK, n, |ranked|);
        return;
      }
      var file := FileOf(files, ranked[n].doc);
      var count := if file in perFile then perFile[file] else 0;
      if count < MAX_CHUNKS_PER_FILE {
        AtAppend(ranked, Kept(files, ranked, topK, n), n);
        FilesAppend(files, kept, ranked[n]);
        perFile := perFile[file := count + 1];
        kept := kept + [ranked[n]];
      }
    }
  }

  lemma {:induction false} KeptStops(files: seq<string>, ranked: seq<Scored>, topK: nat, m: nat, n: nat)
    requires m <= n <= |ranked| && |Kept(files, ranked, topK, m)| >= topK
    ensures Kept(files, ranked, topK, n) == Kept(files, ranked, topK, m)
  {
    hide InFile, At, FileOf;
    if m < n {
      KeptStops(files, ranked, topK, m, n - 1);
    }
  }

  // ----- The limits -----

  predicate Increasing(s: seq<nat>) {
    forall i, j | 0 <= i < j < |s| :: s[i] < s[j]
  }

  /** A selection from the ranking: positions in ranking order, within `top_k` and the quota of every file. */
  ghost predicate Admissible(files: seq<string>, ranked: seq<Scored>, topK: nat, sel: seq<nat>) {
    && Increasing(sel) && (forall i | 0 <= i < |sel| :: sel[i] < |ranked|)
    && |sel| <= topK
    && forall f :: InFile(files, At(ranked, sel), f) <= 3
  }

  lemma {:induction false} KeptIsAdmissible(files: seq<string>, ranked: seq<Scored>, topK: nat, n: nat)
    requires n <= |ranked|
    ensures Admissible(files, ranked, topK, Kept(files, ranked, topK, n))
  {
    hide InFile;
    if n == 0 {
      assert Files(files, At(ranked, [])) == [];
      EmptyFiles(files);
      assert At(ranked, []) == [];
    } else {
      KeptIsAdmissible(files, ranked, topK, n - 1);
      var r := Kept(files, ranked, topK, n - 1);
      AtAppend(ranked, r, n - 1);
      FilesAppend(files, At(ranked, r), ranked[n - 1]);
    }
  }

  lemma EmptyFiles(files: seq<string>)
    ensures forall f :: InFile(files, [], f) == 0
  {
    assert Files(files, []) == [];
  }

  function Min(a: nat, b: nat): nat {
    if a < b then a else b
  }

  /** Either `top_k` is reached, or every file has kept as many as its quota allows. */
  lemma {:induction false} KeptIsFull(files: seq<string>, ranked: seq<Scored>, topK: nat, n: nat)
    requires n <= |ranked|
    ensures |Kept(files, ranked, topK, n)| < topK ==>
      forall f :: InFile(files, At(ranked, Kept(files, ranked, topK, n)), f) >=
        Min(MAX_CHUNKS_PER_FILE, InFile(files, ranked[..n], f))
  {
    hide InFile;
    if n == 0 {
      EmptyFiles(files);
      assert ranked[..0] == [];
    } else {
      KeptIsFull(files, ranked, topK, n - 1);
      var r := Kept(files, ranked, topK, n - 1);
      AtAppend(ranked, r, n - 1);
      FilesAppend(files, At(ranked, r), ranked[n - 1]);
      FilesAppend(files, ranked[..n - 1], ranked[n - 1]);
      assert ranked[..n] == ranked[..n - 1] + [ranked[n - 1]];
    }
  }

  // ----- Optimality -----

  /** The positions of a selection that lie before `n`. */
  function UpTo(sel: seq<nat>, n: nat): (r: seq<nat>)
    ensures |r| <= |sel| && r == sel[..|r|]
    ensures forall i | 0 <= i < |r| :: r[i] < n
    ensures |r| < |sel| ==> sel[|r|] >= n
  {
    if sel == [] || sel[0] >= n then []
    else
      var r := UpTo(sel[1..], n);
      assert forall i | 0 < i <= |r| :: sel[i] == sel[1..][i - 1];
      [sel[0]] + r
  }

  /** No file has more in a selection's beginning than in the ranking's. */
  lemma {:induction false} SelectionWithinRanking(files: seq<string>, ranked: seq<Scored>, sel: seq<nat>, n: nat)
    requires n <= |ranked| && Increasing(sel) && forall i | 0 <= i < |sel| :: sel[i] < n
    ensures forall f :: InFile(files, At(ranked, sel), f) <= InFile(files, ranked[..n], f)
    decreases n
  {
    hide InFile;
    if n == 0 {
      EmptyFiles(files);
      assert sel == [];
      assert At(ranked, sel) == [];
    } else {
      assert ranked[..n] == ranked[..n - 1] + [ranked[n - 1]];
      FilesAppend(files, ranked[..n - 1], ranked[n - 1]);
      if sel != [] && sel[|sel| - 1] == n - 1 {
        var init := sel[..|sel| - 1];
        assert sel == init + [n - 1];
        SelectionWithinRanking(files, ranked, init, n - 1);
        AtAppend(ranked, init, n - 1);
        FilesAppend(files, At(ranked, init), ranked[n - 1]);
      } else {
        SelectionWithinRanking(files, ranked, sel, n - 1);
      }
    }
  }

  lemma {:induction false} PrefixWithin(files: seq<string>, ranked: seq<Scored>, sel: seq<nat>, k: nat)
    requires k <= |sel| && forall i | 0 <= i < |sel| :: sel[i] < |ranked|
    ensures forall f :: InFile(files, At(ranked, sel[..k]), f) <= InFile(files, At(ranked, sel), f)
    decreases |sel| - k
  {
    hide InFile;
    if k < |sel| {
      PrefixWithin(files, ranked, sel, k + 1);
      AtAppend(ranked, sel[..k], sel[k]);
      FilesAppend(files, At(ranked, sel[..k]), ranked[sel[k]]);
      assert sel[..k + 1] == sel[..k] + [sel[k]];
    } else {
      assert sel[..k] == sel;
    }
  }

  lemma CountsBoundLength(files: seq<string>, a: seq<Scored>, b: seq<Scored>)
    requires forall f :: InFile(files, a, f) <= InFile(files, b, f)
    ensures |a| <= |b|
  {
    var x, y := multiset(Files(files, a)), multiset(Files(files, b));
    assert forall f :: x[f] == InFile(files, a, f) && y[f] == InFile(files, b, f);
    assert y == x + (y - x);
    assert |x| == |a| && |y| == |b|;
  }

  /** At every point of the ranking the greedy walk has kept at least as many as any selection. */
  lemma GreedyStaysAhead(files: seq<string>, ranked: seq<Scored>, topK: nat, sel: seq<nat>, n: nat)
    requires n <= |ranked| && Admissible(files, ranked, topK, sel)
    ensures |UpTo(sel, n)| <= |Kept(files, ranked, topK, n)|
  {
    hide InFile;
    var kept, s := Kept(files, ranked, topK, n), UpTo(sel, n);
    if |kept| < topK {
      KeptIsFull(files, ranked, topK, n);
      SelectionWithinRanking(files, ranked, s, n);
      PrefixWithin(files, ranked, sel, |s|);
      CountsBoundLength(files, At(ranked, s), At(ranked, kept));
    }
  }

  lemma {:induction false} KeptGrows(files: seq<string>, ranked: seq<Scored>, topK: nat, m: nat, n: nat)
    requires m <= n <= |ranked|
    ensures Kept(files, ranked, topK, m) <= Kept(files, ranked, topK, n)
  {
    hide InFile, At, FileOf;
    if m < n {
      KeptGrows(files, ranked, topK, m, n - 1);
    }
  }

  /**
   The cap is optimal: whatever selection is made within the same limits, it is no longer,
   and its i-th best score is no better than the i-th score kept.
   */
  lemma CapIsOptimal(files: seq<string>, ranked: seq<Scored>, topK: nat, sel: seq<nat>)
    requires Ranked(ranked) && Admissible(files, ranked, topK, sel)
    ensures Admissible(files, ranked, topK, Kept(files, ranked, topK, |ranked|))
    ensures |sel| <= |Cap(files, ranked, topK)|
    ensures forall i | 0 <= i < |sel| :: ScoreKey(ranked[sel[i]].score) <= ScoreKey(Cap(files, ranked, topK)[i].score)
  {
    hide InFile, Admissible, Before, ScoreKey, Kept;
    KeptIsAdmissible(files, ranked, topK, |ranked|);
    AllUpTo(files, ranked, topK, sel, |ranked|);
    GreedyStaysAhead(files, ranked, topK, sel, |ranked|);
    forall i | 0 <= i < |sel|
      ensures ScoreKey(ranked[sel[i]].score) <= ScoreKey(Cap(files, ranked, topK)[i].score)
    {
      KeptComesNoLater(files, ranked, topK, sel, i);
      EarlierScoresNoLess(ranked, Kept(files, ranked, topK, |ranked|)[i], sel[i]);
    }
  }

  lemma KeptComesNoLater(files: seq<string>, ranked: seq<Scored>, topK: nat, sel: seq<nat>, i: nat)
    requires Admissible(files, ranked, topK, sel) && i < |sel|
    ensures i < |Kept(files, ranked, topK, |ranked|)| && Kept(files, ranked, topK, |ranked|)[i] <= sel[i] < |ranked|
  {
    hide InFile, Kept, Admissible;
    SelectedPosition(files, ranked, topK, sel, i);
    GreedyStaysAhead(files, ranked, topK, sel, sel[i] + 1);
    KeptGrows(files, ranked, topK, sel[i] + 1, |ranked|);
    assert Kept(files, ranked, topK, |ranked|)[i] == Kept(files, ranked, topK, sel[i] + 1)[i];
  }

  lemma EarlierScoresNoLess(ranked: seq<Scored>, i: nat, j: nat)
    requires Ranked(ranked) && i <= j < |ranked|
    ensures ScoreKey(ranked[j].score) <= ScoreKey(ranked[i].score)
  {
    hide ScoreKey;
    assert i < j ==> !Before(ranked[j], ranked[i]);
  }

  lemma AllUpTo(files: seq<string>, ranked: seq<Scored>, topK: nat, sel: seq<nat>, n: nat)
    requires Admissible(files, ranked, topK, sel) && n == |ranked|
    ensures UpTo(sel, n) == sel
  {
  }

  lemma SelectedPosition(files: seq<string>, ranked: seq<Scored>, topK: nat, sel: seq<nat>, i: nat)
    requires Admissible(files, ranked, topK, sel) && i < |sel|
    ensures sel[i] < |ranked| && |UpTo(sel, sel[i] + 1)| > i
  {
    var r := UpTo(sel, sel[i] + 1);
    assert !(|r| <= i);
  }
}
