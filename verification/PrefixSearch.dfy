/** The leftmost-match search for a secret prefix, and how it reacts to edits of the text. */
module PrefixSearch {
  import opened Options
  import opened SecretPrefix

  /** A prefix starts at position `j` of `s`. */
  predicate MatchesAt(u: Unicode, s: string, j: nat, before: bool)
    requires j <= |s|
  {
    IsMatch(u, s[j..], WordBefore(u, s, j, before))
  }

  /** `f` is the prefix that starts at its start position. */
  predicate IsPrefix(u: Unicode, s: string, f: Prefix, before: bool) {
    && f.start <= |s| && MatchesAt(u, s, f.start, before)
    && var t := s[f.start..];
    var k := KeyAt(u, t, WordBefore(u, s, f.start, before));
    f.keyEnd == f.start + k && f.end == f.start + OperatorEnd(u, t, k)
  }

  lemma SuffixShift(u: Unicode, s: string, j: nat, before: bool)
    requires s != "" && j < |s|
    ensures MatchesAt(u, s, 1 + j, before) == MatchesAt(u, s[1..], j, IsWord(u, s[0]))
    ensures s[1..][j..] == s[1 + j..] && WordBefore(u, s[1..], j, IsWord(u, s[0])) == WordBefore(u, s, 1 + j, before)
  {
    assert s[1..][j..] == s[1 + j..];
  }

  /** The search finds the leftmost prefix, and fails only when there is none. */
  lemma {:induction false} FindIsLeftmost(u: Unicode, s: string, before: bool)
    ensures var p := Find(u, s, before);
      match p
      case Some(f) => IsPrefix(u, s, f, before) && forall j | 0 <= j < f.start :: !MatchesAt(u, s, j, before)
      case None => forall j | 0 <= j <= |s| :: !MatchesAt(u, s, j, before)
  {
    hide IsMatch, KeyAt, OperatorEnd, MatchesAt, IsPrefix, IsWord;
    StartMatches(u, s, before);
    if s == "" {
      EmptyDoesNotMatch(u, s, before);
    } else if !IsMatch(u, s, before) {
      FindIsLeftmost(u, s[1..], IsWord(u, s[0]));
      var p := Find(u, s[1..], IsWord(u, s[0]));
      forall j | 0 < j <= |s|
        ensures MatchesAt(u, s, j, before) == MatchesAt(u, s[1..], j - 1, IsWord(u, s[0]))
      {
        SuffixShift(u, s, j - 1, before);
      }
      if p.Some? {
        PrefixShift(u, s, p.value, before);
      }
    }
  }

  /** What the search says of the start of a text. */
  lemma StartMatches(u: Unicode, s: string, before: bool)
    ensures MatchesAt(u, s, 0, before) == IsMatch(u, s, before)
    ensures var k := KeyAt(u, s, before); IsMatch(u, s, before) ==>
      IsPrefix(u, s, Prefix(0, k, OperatorEnd(u, s, k)), before)
  {
    hide IsMatch, KeyAt, OperatorEnd;
    assert s[0..] == s;
  }

  lemma PrefixShift(u: Unicode, s: string, f: Prefix, before: bool)
    requires s != "" && IsPrefix(u, s[1..], f, IsWord(u, s[0]))
    ensures IsPrefix(u, s, Prefix(1 + f.start, 1 + f.keyEnd, 1 + f.end), before)
  {
    hide IsMatch, KeyAt, OperatorEnd;
    SuffixShift(u, s, f.start, before);
  }

  lemma EmptyDoesNotMatch(u: Unicode, s: string, before: bool)
    requires s == ""
    ensures !IsMatch(u, s, before)
  {
    if IsMatch(u, s, before) {
      MatchShape(u, s, before);
    }
  }

  /** Being leftmost pins the search's answer down. */
  lemma FindIsUnique(u: Unicode, s: string, f: Prefix, before: bool)
    requires IsPrefix(u, s, f, before) && forall j | 0 <= j < f.start :: !MatchesAt(u, s, j, before)
    ensures Find(u, s, before) == Some(f)
  {
    hide IsMatch, Find, MatchesAt, KeyAt, OperatorEnd, WordBefore;
    FindIsLeftmost(u, s, before);
  }

  lemma FindNoneIff(u: Unicode, s: string, before: bool)
    ensures Find(u, s, before) == None <==> forall j | 0 <= j <= |s| :: !MatchesAt(u, s, j, before)
  {
    hide IsMatch, Find, MatchesAt, KeyAt, OperatorEnd, WordBefore;
    FindIsLeftmost(u, s, before);
    var p := Find(u, s, before);
    if p.Some? {
      assert MatchesAt(u, s, p.value.start, before);
    }
  }

  /** A prefix in place: key characters, space, one operator, space up to its end. */
  lemma PrefixShape(u: Unicode, s: string, f: Prefix, before: bool) returns (o: nat)
    requires IsPrefix(u, s, f, before)
    ensures f.start < f.keyEnd <= o < f.end <= |s| && IsOperator(s[o])
    ensures forall i | f.start <= i < f.keyEnd :: IsKeyChar(s[i])
    ensures forall i | f.keyEnd <= i < o :: IsSpace(u, s[i])
    ensures forall i | o < i < f.end :: IsSpace(u, s[i])
    ensures f.end < |s| ==> !IsSpace(u, s[f.end])
    ensures o == f.start + OperatorAt(u, s[f.start..], f.keyEnd - f.start)
  {
    hide KeyAt, OperatorAt, OperatorEnd;
    var t := s[f.start..];
    var b := WordBefore(u, s, f.start, before);
    MatchShape(u, t, b);
    EndOfMatch(u, t, b);
    o := f.start + OperatorAt(u, t, KeyAt(u, t, b));
    assert forall i | f.start <= i < |s| :: s[i] == t[i - f.start];
  }

  /** A match at `j` survives any edit behind its operator. */
  lemma MatchSurvives(u: Unicode, s: string, t: string, n: nat, j: nat, before: bool)
    requires j <= n <= |s| && n <= |t| && s[..n] == t[..n] && MatchesAt(u, s, j, before)
    requires exists o | j <= o < n :: IsOperator(s[o])
    ensures MatchesAt(u, t, j, before)
    ensures KeyAt(u, t[j..], WordBefore(u, t, j, before)) == KeyAt(u, s[j..], WordBefore(u, s, j, before))
  {
    hide KeyAt, OperatorAt;
    var b := WordBefore(u, s, j, before);
    assert j > 0 ==> s[j - 1] == s[..n][j - 1] == t[..n][j - 1] == t[j - 1];
    assert s[j..][..n - j] == s[..n][j..] && t[j..][..n - j] == t[..n][j..];
    MatchShape(u, s[j..], b);
    var k := KeyAt(u, s[j..], b);
    var o :| j <= o < n && IsOperator(s[o]);
    assert s[j..][o - j] == s[o];
    if o - j < OperatorAt(u, s[j..], k) {
      ShapeOperatorIsFirst(u, s[j..], k, OperatorAt(u, s[j..], k), o - j);
    }
    MatchIsLocal(u, s[j..], t[j..], n - j, b);
    PositiveKeyIsMatch(u, t[j..], b);
  }

  /** A prefix survives any edit behind it that does not add space to it. */
  lemma PrefixSurvives(u: Unicode, s: string, t: string, f: Prefix, before: bool)
    requires IsPrefix(u, s, f, before)
    requires f.end <= |s| && f.end <= |t| && s[..f.end] == t[..f.end] && (f.end < |t| ==> !IsSpace(u, t[f.end]))
    ensures IsPrefix(u, t, f, before) && exists o | f.start <= o < f.end :: IsOperator(s[o])
  {
    hide IsMatch, KeyAt, OperatorAt, OperatorEnd;
    var o := PrefixShape(u, s, f, before);
    MatchSurvives(u, s, t, f.end, f.start, before);
    var b := WordBefore(u, t, f.start, before);
    var g := Prefix(f.start, f.keyEnd, f.start + OperatorEnd(u, t[f.start..], f.keyEnd - f.start));
    var o' := PrefixShape(u, t, g, before);
    assert forall i | 0 <= i < f.end :: s[i] == s[..f.end][i] == t[..f.end][i] == t[i];
    SameEnd(u, s, t, f, g, o, o');
  }

  /** The leftmost prefix stays leftmost. */
  lemma FindSurvives(u: Unicode, s: string, t: string, before: bool)
    requires Find(u, s, before).Some?
    requires var e := Find(u, s, before).value.end;
      e <= |s| && e <= |t| && s[..e] == t[..e] && (e < |t| ==> !IsSpace(u, t[e]))
    ensures Find(u, t, before) == Find(u, s, before)
  {
    hide IsMatch, Find, KeyAt, OperatorEnd;
    FindIsLeftmost(u, s, before);
    var f := Find(u, s, before).value;
    PrefixSurvives(u, s, t, f, before);
    var o :| f.start <= o < f.end && IsOperator(s[o]);
    assert t[o] == t[..f.end][o] == s[..f.end][o] == s[o];
    forall j | 0 <= j < f.start
      ensures !MatchesAt(u, t, j, before)
    {
      if MatchesAt(u, t, j, before) {
        MatchSurvives(u, t, s, f.end, j, before);
      }
    }
    FindIsUnique(u, t, f, before);
  }

  lemma SameEnd(u: Unicode, s: string, t: string, f: Prefix, g: Prefix, o: nat, o': nat)
    requires f.start == g.start && f.keyEnd == g.keyEnd <= o < f.end <= |s| && g.keyEnd <= o' < g.end <= |t|
    requires f.end <= |t| && (forall i | 0 <= i < f.end :: s[i] == t[i])
    requires IsOperator(s[o]) && IsOperator(t[o'])
    requires (forall i | f.keyEnd <= i < o :: IsSpace(u, s[i])) && (forall i | o < i < f.end :: IsSpace(u, s[i]))
    requires (forall i | g.keyEnd <= i < o' :: IsSpace(u, t[i])) && (forall i | o' < i < g.end :: IsSpace(u, t[i]))
    requires f.end < |t| ==> !IsSpace(u, t[f.end])
    requires g.end < |t| ==> !IsSpace(u, t[g.end])
    ensures f.end == g.end
  {
    assert !(o < o') && !(o' < o);
    assert !(g.end < f.end) && !(f.end < g.end);
  }

  /** A position of a suffix is a position of the text. */
  lemma SuffixPosition(u: Unicode, s: string, n: nat, j: nat, before: bool)
    requires n <= n + j <= |s|
    ensures var t, b := s[n..], WordBefore(u, s, n, before);
      && t[j..] == s[n + j..] && WordBefore(u, t, j, b) == WordBefore(u, s, n + j, before)
      && MatchesAt(u, t, j, b) == MatchesAt(u, s, n + j, before)
  {
    hide IsMatch;
    assert s[n..][j..] == s[n + j..];
  }

  lemma SuffixPositions(u: Unicode, s: string, n: nat, before: bool)
    requires n <= |s|
    ensures var t, b := s[n..], WordBefore(u, s, n, before);
      forall j | 0 <= j <= |t| ::
        && t[j..] == s[n + j..] && WordBefore(u, t, j, b) == WordBefore(u, s, n + j, before)
        && MatchesAt(u, t, j, b) == MatchesAt(u, s, n + j, before)
  {
    hide MatchesAt, WordBefore;
    var t, b := s[n..], WordBefore(u, s, n, before);
    forall j | 0 <= j <= |t|
      ensures t[j..] == s[n + j..] && WordBefore(u, t, j, b) == WordBefore(u, s, n + j, before)
      ensures MatchesAt(u, t, j, b) == MatchesAt(u, s, n + j, before)
    {
      SuffixPosition(u, s, n, j, before);
    }
  }

  lemma SuffixPrefix(u: Unicode, s: string, n: nat, f: Prefix, before: bool)
    requires n <= |s| && IsPrefix(u, s[n..], f, WordBefore(u, s, n, before))
    ensures IsPrefix(u, s, Prefix(n + f.start, n + f.keyEnd, n + f.end), before)
  {
    hide MatchesAt, WordBefore, KeyAt, OperatorEnd;
    SuffixPosition(u, s, n, f.start, before);
  }

  /** A search from position `n` finds the leftmost prefix starting at or behind it. */
  lemma FindFrom(u: Unicode, s: string, n: nat, before: bool)
    requires n <= |s|
    ensures var p := Shifted(n, Find(u, s[n..], WordBefore(u, s, n, before)));
      match p
      case Some(f) =>
        f.start >= n && IsPrefix(u, s, f, before) && forall j | n <= j < f.start :: !MatchesAt(u, s, j, before)
      case None => forall j | n <= j <= |s| :: !MatchesAt(u, s, j, before)
  {
    hide IsMatch, Find, KeyAt, OperatorEnd, MatchesAt, WordBefore, IsPrefix;
    var t, b := s[n..], WordBefore(u, s, n, before);
    FindIsLeftmost(u, t, b);
    forall j | n <= j <= |s|
      ensures MatchesAt(u, s, j, before) == MatchesAt(u, t, j - n, b)
    {
      SuffixPosition(u, s, n, j - n, before);
    }
    var p := Find(u, t, b);
    if p.Some? {
      SuffixPrefix(u, s, n, p.value, before);
    }
  }

  /** A prefix that is the first at or behind `n` is what a search from `n` finds. */
  lemma FindFromIs(u: Unicode, s: string, n: nat, f: Prefix, before: bool)
    requires n <= f.start && IsPrefix(u, s, f, before)
    requires forall j | n <= j < f.start :: !MatchesAt(u, s, j, before)
    ensures Find(u, s[n..], WordBefore(u, s, n, before)) == Some(Prefix(f.start - n, f.keyEnd - n, f.end - n))
  {
    hide IsMatch, Find, KeyAt, OperatorEnd;
    SuffixPositions(u, s, n, before);
    FindIsUnique(u, s[n..], Prefix(f.start - n, f.keyEnd - n, f.end - n), WordBefore(u, s, n, before));
  }

  /** No prefix starts at a character no key is made of. */
  lemma NoMatchAt(u: Unicode, s: string, j: nat, before: bool)
    requires j <= |s| && (j < |s| ==> !IsKeyChar(s[j]))
    ensures !MatchesAt(u, s, j, before)
  {
    if MatchesAt(u, s, j, before) {
      MatchShape(u, s[j..], WordBefore(u, s, j, before));
    }
  }
}
