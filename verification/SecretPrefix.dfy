/**
 The generic assignment prefix of src/redactor.rs: a whole-word secret-looking key, in any
 case, and its `=` or `:` with surrounding space. The classes of characters beyond ASCII
 come from Unicode tables that are a parameter here.
 */
module SecretPrefix {
  import opened Options

  /** Membership of the characters beyond ASCII in the word and white-space classes. */
  datatype Tables = Tables(word: char -> bool, space: char -> bool)

  /** In Unicode neither long s nor the Kelvin sign is white space. */
  type Unicode = t: Tables | !t.space('\U{17F}') && !t.space('\U{212A}')
    witness Tables(c => false, c => false)

  predicate IsWord(u: Unicode, c: char) {
    if c < 128 as char then 'a' <= c <= 'z' || 'A' <= c <= 'Z' || '0' <= c <= '9' || c == '_'
    else u.word(c)
  }

  predicate IsSpace(u: Unicode, c: char) {
    if c < 128 as char then c == ' ' || '\t' <= c <= '\r' else u.space(c)
  }

  predicate IsOperator(c: char) {
    c == ':' || c == '='
  }

  /** Simple case folding onto the letters of the keys: long s and the Kelvin sign fold to ASCII. */
  function Fold(c: char): char {
    if 'A' <= c <= 'Z' then 'a' + (c - 'A')
    else if c == '\U{17F}' then 's'
    else if c == '\U{212A}' then 'k'
    else c
  }

  predicate IsKeyChar(c: char) {
    'a' <= Fold(c) <= 'z' || c == '_' || c == '-'
  }

  lemma SpaceIsNoKeyChar(u: Unicode, c: char)
    requires IsSpace(u, c)
    ensures !IsKeyChar(c) && !IsOperator(c)
  {
  }

  /** A key: one word, or two words with an optional `_` or `-` between them. */
  datatype Key = Plain(word: string) | Joined(head: string, tail: string)

  const KEYS: seq<Key> := [
    Plain("password"), Plain("passwd"), Joined("secret", "key"), Plain("secret"),
    Joined("api", "key"), Joined("access", "key"), Joined("auth", "token"),
    Joined("private", "key"), Plain("token")
  ]

  predicate Lowercase(w: string) {
    w != "" && forall i | 0 <= i < |w| :: 'a' <= w[i] <= 'z'
  }

  predicate WellFormedKey(key: Key) {
    match key
    case Plain(w) => Lowercase(w)
    case Joined(h, t) => Lowercase(h) && Lowercase(t)
  }

  lemma KeysWellFormed()
    ensures forall i | 0 <= i < |KEYS| :: WellFormedKey(KEYS[i])
  {
  }

  predicate SpellsWord(s: string, w: string) {
    |w| <= |s| && forall i | 0 <= i < |w| :: Fold(s[i]) == w[i]
  }

  /** Length of the key at the start of `s`, or 0. */
  function KeyLength(key: Key, s: string): nat {
    match key
    case Plain(w) => if SpellsWord(s, w) then |w| else 0
    case Joined(h, t) =>
      if !SpellsWord(s, h) then 0
      else
        var r := s[|h|..];
        if r != "" && (r[0] == '_' || r[0] == '-') && SpellsWord(r[1..], t) then |h| + 1 + |t|
        else if SpellsWord(r, t) then |h| + |t|
        else 0
  }

  function SpaceRun(u: Unicode, s: string): (n: nat)
    ensures n <= |s| && (n < |s| ==> !IsSpace(u, s[n]))
    ensures forall i | 0 <= i < n :: IsSpace(u, s[i])
  {
    if s == "" || !IsSpace(u, s[0]) then 0 else 1 + SpaceRun(u, s[1..])
  }

  /** A word boundary at the start of `s`, `before` saying whether a word character precedes it. */
  predicate Boundary(u: Unicode, s: string, before: bool) {
    before != (s != "" && IsWord(u, s[0]))
  }

  /** The operator's position after a key of length `k`. */
  function OperatorAt(u: Unicode, s: string, k: nat): (o: nat)
    requires k <= |s|
    ensures k <= o <= |s|
  {
    k + SpaceRun(u, s[k..])
  }

  /** Does `key`, as a whole word followed by an operator, stand at the start of `s`? */
  predicate KeyMatches(u: Unicode, key: Key, s: string, before: bool) {
    var k := KeyLength(key, s);
    && 0 < k <= |s| && Boundary(u, s, before) && Boundary(u, s[k..], IsWord(u, s[k - 1]))
    && var o := OperatorAt(u, s, k);
    o < |s| && IsOperator(s[o])
  }

  /** A prefix found: where it starts, where its key ends, and where its operator's space ends. */
  datatype Prefix = Prefix(start: nat, keyEnd: nat, end: nat)

  /** The first key of the list that matches at the start of `s`, with its length. */
  function FirstKey(u: Unicode, keys: seq<Key>, s: string, before: bool): nat {
    if keys == [] then 0
    else if KeyMatches(u, keys[0], s, before) then KeyLength(keys[0], s)
    else FirstKey(u, keys[1..], s, before)
  }

  function KeyAt(u: Unicode, s: string, before: bool): nat {
    FirstKey(u, KEYS, s, before)
  }

  /** End of the operator and its space, after a key of length `k`. */
  function OperatorEnd(u: Unicode, s: string, k: nat): (e: nat)
    requires k <= |s|
    ensures k <= e <= |s|
  {
    var o := OperatorAt(u, s, k);
    if o < |s| then o + 1 + SpaceRun(u, s[o + 1..]) else o
  }

  predicate IsMatch(u: Unicode, s: string, before: bool) {
    0 < KeyAt(u, s, before) <= |s|
  }

  function Shifted(n: nat, p: Option<Prefix>): Option<Prefix> {
    match p
    case None => None
    case Some(f) => Some(Prefix(n + f.start, n + f.keyEnd, n + f.end))
  }

  /** The leftmost prefix in `s`. */
  function Find(u: Unicode, s: string, before: bool): (p: Option<Prefix>)
    ensures p.Some? ==> p.value.start < p.value.keyEnd <= p.value.end <= |s|
  {
    if s == "" then None
    else if IsMatch(u, s, before) then
      var k := KeyAt(u, s, before);
      Some(Prefix(0, k, OperatorEnd(u, s, k)))
    else Shifted(1, Find(u, s[1..], IsWord(u, s[0])))
  }

  /** Whether a word character precedes position `i` of `s`. */
  predicate WordBefore(u: Unicode, s: string, i: nat, before: bool)
    requires i <= |s|
  {
    if i == 0 then before else IsWord(u, s[i - 1])
  }

  // ----- What a match looks like -----

  /** Key characters, then space, then the operator, at which a match is decided. */
  predicate Shape(u: Unicode, s: string, k: nat, o: nat) {
    && 0 < k <= o < |s| && IsOperator(s[o])
    && (forall i | 0 <= i < k :: IsKeyChar(s[i]))
    && (forall i | k <= i < o :: IsSpace(u, s[i]))
  }

  lemma KeyLengthIsKeyChars(key: Key, s: string)
    requires WellFormedKey(key)
    ensures KeyLength(key, s) <= |s|
    ensures forall i | 0 <= i < KeyLength(key, s) :: IsKeyChar(s[i])
  {
    match key
    case Plain(w) =>
    case Joined(h, t) =>
      if SpellsWord(s, h) {
        var r := s[|h|..];
        assert forall i | |h| <= i < |s| :: s[i] == r[i - |h|];
        if r != "" {
          assert forall i | |h| + 1 <= i < |s| :: s[i] == r[1..][i - |h| - 1];
        }
      }
  }

  lemma SpellsIsLocal(s: string, t: string, w: string, n: nat)
    requires n <= |s| && n <= |t| && s[..n] == t[..n] && |w| <= n
    ensures SpellsWord(s, w) == SpellsWord(t, w)
  {
    assert forall i | 0 <= i < n :: s[i] == s[..n][i] == t[..n][i] == t[i];
  }

  lemma KeyLengthIsLocal(key: Key, s: string, t: string, n: nat)
    requires WellFormedKey(key) && n <= |s| && n <= |t| && s[..n] == t[..n]
    requires 0 < KeyLength(key, s) <= n
    ensures KeyLength(key, t) == KeyLength(key, s)
  {
    hide SpellsWord;
    match key
    case Plain(w) => SpellsIsLocal(s, t, w, n);
    case Joined(h, tail) =>
      SpellsIsLocal(s, t, h, n);
      var r, q := s[|h|..], t[|h|..];
      var m := n - |h|;
      assert r[..m] == s[..n][|h|..] == t[..n][|h|..] == q[..m];
      assert tail != "" by { TailNotEmpty(key); }
      assert r[0] == r[..m][0] == q[..m][0] == q[0];
      if (r[0] == '_' || r[0] == '-') && SpellsWord(r[1..], tail) {
        assert r[1..][..m - 1] == r[..m][1..] == q[..m][1..] == q[1..][..m - 1];
        SpellsIsLocal(r[1..], q[1..], tail, m - 1);
      } else {
        SpellsIsLocal(r, q, tail, m);
        SpelledIsLetter(r, tail);
      }
  }

  lemma TailNotEmpty(key: Key)
    requires key.Joined? && WellFormedKey(key)
    ensures key.tail != "" && key.head != ""
  {
  }

  lemma SpelledIsLetter(s: string, w: string)
    requires Lowercase(w) && SpellsWord(s, w)
    ensures s != "" && s[0] != '_' && s[0] != '-'
  {
    assert Fold(s[0]) == w[0];
  }

  lemma MatchHasShape(u: Unicode, key: Key, s: string, before: bool)
    requires WellFormedKey(key) && KeyMatches(u, key, s, before)
    ensures Shape(u, s, KeyLength(key, s), OperatorAt(u, s, KeyLength(key, s)))
  {
    KeyLengthIsKeyChars(key, s);
    var k := KeyLength(key, s);
    assert forall i | k <= i < |s| :: s[i] == s[k..][i - k];
  }

  /** The operator of a shape is the first operator of the text. */
  lemma ShapeOperatorIsFirst(u: Unicode, s: string, k: nat, o: nat, i: nat)
    requires Shape(u, s, k, o) && i < o
    ensures !IsOperator(s[i])
  {
  }

  lemma SpaceRunIsLocal(u: Unicode, s: string, n: nat)
    requires n <= |s| && (forall i | 0 <= i < n :: IsSpace(u, s[i])) && (n < |s| ==> !IsSpace(u, s[n]))
    ensures SpaceRun(u, s) == n
  {
    var m := SpaceRun(u, s);
    assert !(m < n);
  }

  lemma KeyMatchIsLocal(u: Unicode, key: Key, s: string, t: string, n: nat, before: bool)
    requires WellFormedKey(key) && KeyMatches(u, key, s, before)
    requires n <= |s| && n <= |t| && s[..n] == t[..n] && OperatorAt(u, s, KeyLength(key, s)) < n
    ensures KeyMatches(u, key, t, before) && KeyLength(key, t) == KeyLength(key, s)
  {
    hide KeyLength;
    MatchHasShape(u, key, s, before);
    KeyLengthIsLocal(key, s, t, n);
    OperatorIsLocal(u, s, t, KeyLength(key, s), n);
  }

  lemma OperatorIsLocal(u: Unicode, s: string, t: string, k: nat, n: nat)
    requires n <= |s| && n <= |t| && s[..n] == t[..n] && k <= |s| && OperatorAt(u, s, k) < n
    requires Shape(u, s, k, OperatorAt(u, s, k))
    ensures k <= |t| && OperatorAt(u, t, k) == OperatorAt(u, s, k) && Shape(u, t, k, OperatorAt(u, t, k))
  {
    var o := OperatorAt(u, s, k);
    forall i | 0 <= i < n
      ensures s[i] == t[i]
    {
      assert s[i] == s[..n][i] && t[i] == t[..n][i];
    }
    assert forall i | 0 <= i < o - k :: t[k..][i] == t[k + i];
    SpaceRunIsLocal(u, t[k..], o - k);
  }

  lemma {:induction false} FirstKeyIsLocal(u: Unicode, keys: seq<Key>, s: string, t: string, n: nat, before: bool)
    requires forall i | 0 <= i < |keys| :: WellFormedKey(keys[i])
    requires n <= |s| && n <= |t| && s[..n] == t[..n]
    requires 0 < FirstKey(u, keys, s, before) <= |s| && OperatorAt(u, s, FirstKey(u, keys, s, before)) < n
    ensures Shape(u, s, FirstKey(u, keys, s, before), OperatorAt(u, s, FirstKey(u, keys, s, before)))
    ensures FirstKey(u, keys, t, before) == FirstKey(u, keys, s, before)
  {
    hide KeyMatches, KeyLength, OperatorAt;
    if KeyMatches(u, keys[0], s, before) {
      MatchHasShape(u, keys[0], s, before);
      KeyMatchIsLocal(u, keys[0], s, t, n, before);
    } else {
      FirstKeyIsLocal(u, keys[1..], s, t, n, before);
      if KeyMatches(u, keys[0], t, before) {
        MatchHasShape(u, keys[0], t, before);
        var o, o' := OperatorAt(u, s, FirstKey(u, keys, s, before)), OperatorAt(u, t, KeyLength(keys[0], t));
        assert s[o] == s[..n][o] == t[..n][o] == t[o];
        if o < o' {
          ShapeOperatorIsFirst(u, t, KeyLength(keys[0], t), o', o);
        }
        KeyMatchIsLocal(u, keys[0], t, s, n, before);
      }
    }
  }

  // ----- Matches in running text -----

  /** A match is decided by the text up to its operator. */
  lemma MatchIsLocal(u: Unicode, s: string, t: string, n: nat, before: bool)
    requires IsMatch(u, s, before) && n <= |s| && n <= |t| && s[..n] == t[..n]
    requires OperatorAt(u, s, KeyAt(u, s, before)) < n
    ensures KeyAt(u, t, before) == KeyAt(u, s, before)
  {
    KeysWellFormed();
    FirstKeyIsLocal(u, KEYS, s, t, n, before);
  }

  lemma {:induction false} FirstKeyHasShape(u: Unicode, keys: seq<Key>, s: string, before: bool)
    requires forall i | 0 <= i < |keys| :: WellFormedKey(keys[i])
    requires FirstKey(u, keys, s, before) > 0
    ensures FirstKey(u, keys, s, before) <= |s|
    ensures Shape(u, s, FirstKey(u, keys, s, before), OperatorAt(u, s, FirstKey(u, keys, s, before)))
  {
    hide KeyLength, OperatorAt;
    if KeyMatches(u, keys[0], s, before) {
      MatchHasShape(u, keys[0], s, before);
    } else {
      FirstKeyHasShape(u, keys[1..], s, before);
    }
  }

  lemma MatchShape(u: Unicode, s: string, before: bool)
    requires IsMatch(u, s, before)
    ensures Shape(u, s, KeyAt(u, s, before), OperatorAt(u, s, KeyAt(u, s, before)))
  {
    KeysWellFormed();
    FirstKeyHasShape(u, KEYS, s, before);
  }

  lemma PositiveKeyIsMatch(u: Unicode, s: string, before: bool)
    ensures IsMatch(u, s, before) <==> KeyAt(u, s, before) > 0
  {
    if KeyAt(u, s, before) > 0 {
      KeysWellFormed();
      FirstKeyHasShape(u, KEYS, s, before);
    }
  }

  /** The end of a prefix: behind the operator, where the run of space stops. */
  lemma EndOfMatch(u: Unicode, s: string, before: bool)
    requires IsMatch(u, s, before)
    ensures var k := KeyAt(u, s, before); var o := OperatorAt(u, s, k); var e := OperatorEnd(u, s, k);
      && k <= o < e <= |s| && (forall i | o < i < e :: IsSpace(u, s[i])) && (e < |s| ==> !IsSpace(u, s[e]))
  {
    hide KeyAt, IsMatch, OperatorAt, IsSpace;
    MatchShape(u, s, before);
    var k := KeyAt(u, s, before);
    var o := OperatorAt(u, s, k);
    assert forall i | o + 1 <= i < |s| :: s[i] == s[o + 1..][i - o - 1];
  }
}
