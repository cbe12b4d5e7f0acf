/**
 What an assignment prefix is: one of the secret-looking keys, spelled in any case and with or
 without its separator, as a whole word, then space, then a colon or an equals sign.
 */
module KeyGrammar {
  import opened AsciiText
  import opened SecretPrefix

  /** The keys, in small letters. */
  const SPELLINGS: seq<string> := [
    "password", "passwd", "secret", "token",
    "secretkey", "secret_key", "secret-key", "apikey", "api_key", "api-key",
    "accesskey", "access_key", "access-key", "authtoken", "auth_token", "auth-token",
    "privatekey", "private_key", "private-key"
  ]

  /** The text folded: capitals to small letters, the long s to s, the Kelvin sign to k. */
  function Folded(s: string): (r: string)
    ensures |r| == |s|
    ensures forall i | 0 <= i < |s| :: 'A' <= s[i] <= 'Z' ==> r[i] == s[i] - 'A' + 'a'
    ensures forall i | 0 <= i < |s| :: s[i] == '\U{17F}' ==> r[i] == 's'
    ensures forall i | 0 <= i < |s| :: s[i] == '\U{212A}' ==> r[i] == 'k'
    ensures forall i | 0 <= i < |s| && !('A' <= s[i] <= 'Z') && s[i] != '\U{17F}' && s[i] != '\U{212A}' :: r[i] == s[i]
  {
    seq(|s|, i requires 0 <= i < |s| => Fold(s[i]))
  }

  /** A key of length `k` at the start of `s`, a whole word, its operator at position `o` behind space alone. */
  predicate KeyAndOperator(u: Unicode, s: string, before: bool, k: nat, o: nat) {
    && 0 < k <= o < |s| && Folded(s[..k]) in SPELLINGS
    && before != IsWord(u, s[0]) && IsWord(u, s[k - 1]) != IsWord(u, s[k])
    && (forall i | k <= i < o :: IsSpace(u, s[i])) && s[o] in ":="
  }

  /** The spellings of one key of the list. */
  function SpellingsOf(key: Key): seq<string> {
    match key
    case Plain(w) => [w]
    case Joined(h, t) => [h + "_" + t, h + "-" + t, h + t]
  }

  lemma KeysAre()
    ensures |KEYS| == 9 && KEYS[0] == Plain("password") && KEYS[1] == Plain("passwd")
    ensures KEYS[2] == Joined("secret", "key") && KEYS[3] == Plain("secret") && KEYS[4] == Joined("api", "key")
    ensures KEYS[5] == Joined("access", "key") && KEYS[6] == Joined("auth", "token")
    ensures KEYS[7] == Joined("private", "key") && KEYS[8] == Plain("token")
  {
  }

  lemma JoinedSpellings()
    ensures SpellingsOf(Joined("secret", "key")) == ["secret_key", "secret-key", "secretkey"]
    ensures SpellingsOf(Joined("api", "key")) == ["api_key", "api-key", "apikey"]
    ensures SpellingsOf(Joined("access", "key")) == ["access_key", "access-key", "accesskey"]
    ensures SpellingsOf(Joined("auth", "token")) == ["auth_token", "auth-token", "authtoken"]
    ensures SpellingsOf(Joined("private", "key")) == ["private_key", "private-key", "privatekey"]
  {
    assert "secret" + "_" + "key" == "secret_key" && "secret" + "-" + "key" == "secret-key";
    assert "api" + "_" + "key" == "api_key" && "api" + "-" + "key" == "api-key";
    assert "access" + "_" + "key" == "access_key" && "access" + "-" + "key" == "access-key";
    assert "auth" + "_" + "token" == "auth_token" && "auth" + "-" + "token" == "auth-token";
    assert "private" + "_" + "key" == "private_key" && "private" + "-" + "key" == "private-key";
    assert "secret" + "key" == "secretkey" && "api" + "key" == "apikey" && "access" + "key" == "accesskey";
    assert "auth" + "token" == "authtoken" && "private" + "key" == "privatekey";
  }

  lemma SpellingsAreOfKeys(w: string)
    ensures w in SPELLINGS <==> exists i | 0 <= i < |KEYS| :: w in SpellingsOf(KEYS[i])
  {
    KeysAre();
    JoinedSpellings();
    assert SpellingsOf(Plain("password")) == ["password"] && SpellingsOf(Plain("passwd")) == ["passwd"];
    assert SpellingsOf(Plain("secret")) == ["secret"] && SpellingsOf(Plain("token")) == ["token"];
    hide KEYS, SpellingsOf;
    assert w in SPELLINGS <==>
      || w in SpellingsOf(KEYS[0]) || w in SpellingsOf(KEYS[1]) || w in SpellingsOf(KEYS[2])
      || w in SpellingsOf(KEYS[3]) || w in SpellingsOf(KEYS[4]) || w in SpellingsOf(KEYS[5])
      || w in SpellingsOf(KEYS[6]) || w in SpellingsOf(KEYS[7]) || w in SpellingsOf(KEYS[8]);
  }

  lemma SpellsIsFolded(s: string, w: string)
    ensures SpellsWord(s, w) <==> |w| <= |s| && Folded(s[..|w|]) == w
  {
    if SpellsWord(s, w) {
      assert forall i | 0 <= i < |w| :: Folded(s[..|w|])[i] == Fold(s[i]) == w[i];
    }
    if |w| <= |s| && Folded(s[..|w|]) == w {
      assert forall i | 0 <= i < |w| :: Fold(s[i]) == Folded(s[..|w|])[i];
    }
  }

  lemma FoldedConcat(a: string, b: string)
    ensures Folded(a + b) == Folded(a) + Folded(b)
  {
  }

  lemma FoldedIsSeparator(c: char)
    ensures Folded([c]) == "_" <==> c == '_'
    ensures Folded([c]) == "-" <==> c == '-'
  {
    assert Folded([c])[0] == Fold(c);
  }

  /** A key has length `k` at the start of a text exactly when the text spells it there. */
  lemma KeyLengthSpells(key: Key, s: string, k: nat)
    requires WellFormedKey(key) && 0 < k <= |s|
    ensures KeyLength(key, s) == k <==> Folded(s[..k]) in SpellingsOf(key)
  {
    hide SpellsWord, Folded;
    match key
    case Plain(w) => SpellsIsFolded(s, w);
    case Joined(h, t) =>
      SpellsIsFolded(s, h);
      if k < |h| {
        assert |Folded(s[..k])| == k;
      } else {
        var r := s[|h|..];
        assert s[..k] == s[..|h|] + r[..k - |h|];
        FoldedConcat(s[..|h|], r[..k - |h|]);
        SpellsIsFolded(r, t);
        if k > |h| {
          TailSpells(r, t, k - |h|);
          SameHead(Folded(s[..|h|]), Folded(r[..k - |h|]), h, t);
        } else {
          assert |Folded(s[..k])| == k;
        }
      }
  }

  /** Heads of one length: the whole is a spelling exactly when the head and what follows are. */
  lemma SameHead(a: string, b: string, h: string, t: string)
    requires |a| == |h|
    ensures a + b in [h + "_" + t, h + "-" + t, h + t] <==> a == h && b in ["_" + t, "-" + t, t]
  {
    assert h + "_" + t == h + ("_" + t) && h + "-" + t == h + ("-" + t);
    forall x
      ensures a + b == h + x <==> a == h && b == x
    {
      assert (a + b)[..|h|] == a && (a + b)[|h|..] == b;
      assert (h + x)[..|h|] == h && (h + x)[|h|..] == x;
    }
  }

  lemma TailSpells(r: string, t: string, m: nat)
    requires 0 < m <= |r| && Lowercase(t)
    ensures var n := if (r[0] == '_' || r[0] == '-') && SpellsWord(r[1..], t) then 1 + |t|
                     else if SpellsWord(r, t) then |t| else 0;
      n == m <==> Folded(r[..m]) in ["_" + t, "-" + t, t]
  {
    hide SpellsWord;
    SpellsIsFolded(r, t);
    SpellsIsFolded(r[1..], t);
    assert Folded(r[..m])[0] == Fold(r[0]);
    assert ("_" + t)[0] == '_' && ("-" + t)[0] == '-';
    assert |Folded(r[..m])| == m;
    assert r[..m] == [r[0]] + r[1..][..m - 1];
    FoldedConcat([r[0]], r[1..][..m - 1]);
    FoldedIsSeparator(r[0]);
    assert SpellsWord(r, t) ==> Fold(r[0]) == t[0] by {
      if SpellsWord(r, t) {
        assert Folded(r[..|t|])[0] == Fold(r[0]);
      }
    }
    Separated(Folded([r[0]]), Folded(r[1..][..m - 1]), t);
  }

  lemma Separated(a: string, b: string, t: string)
    requires |a| == 1
    ensures a + b == "_" + t <==> a == "_" && b == t
    ensures a + b == "-" + t <==> a == "-" && b == t
  {
    assert (a + b)[..1] == a && (a + b)[1..] == b;
    assert ("_" + t)[..1] == "_" && ("_" + t)[1..] == t && ("-" + t)[..1] == "-" && ("-" + t)[1..] == t;
  }

  lemma {:induction false} FirstKeyFinds(u: Unicode, keys: seq<Key>, s: string, before: bool)
    ensures FirstKey(u, keys, s, before) > 0 <==> exists i | 0 <= i < |keys| :: KeyMatches(u, keys[i], s, before)
    ensures FirstKey(u, keys, s, before) > 0 ==>
      exists i | 0 <= i < |keys| ::
        KeyMatches(u, keys[i], s, before) && KeyLength(keys[i], s) == FirstKey(u, keys, s, before)
  {
    hide KeyLength, OperatorAt;
    if keys != [] {
      FirstKeyFinds(u, keys[1..], s, before);
      if exists i | 0 <= i < |keys[1..]| :: KeyMatches(u, keys[1..][i], s, before) {
        var i :| 0 <= i < |keys[1..]| && KeyMatches(u, keys[1..][i], s, before);
        assert keys[i + 1] == keys[1..][i];
      }
      if !KeyMatches(u, keys[0], s, before) && FirstKey(u, keys, s, before) > 0 {
        var i :| 0 <= i < |keys[1..]| && KeyMatches(u, keys[1..][i], s, before)
          && KeyLength(keys[1..][i], s) == FirstKey(u, keys[1..], s, before);
        assert keys[i + 1] == keys[1..][i];
      }
    }
  }

  lemma OperatorIsAt(u: Unicode, s: string, k: nat, o: nat)
    requires k <= o < |s| && (forall i | k <= i < o :: IsSpace(u, s[i])) && s[o] in ":="
    ensures OperatorAt(u, s, k) == o
  {
    assert forall i | 0 <= i < o - k :: s[k..][i] == s[k + i];
    assert s[k..][o - k] == s[o];
    SpaceRunIsLocal(u, s[k..], o - k);
  }

  lemma KeyMatchesIs(u: Unicode, key: Key, s: string, before: bool, k: nat, o: nat)
    requires WellFormedKey(key) && 0 < k <= o < |s| && KeyLength(key, s) == k
    requires before != IsWord(u, s[0]) && IsWord(u, s[k - 1]) != IsWord(u, s[k])
    requires (forall i | k <= i < o :: IsSpace(u, s[i])) && s[o] in ":="
    ensures KeyMatches(u, key, s, before)
  {
    hide KeyLength, OperatorAt;
    OperatorIsAt(u, s, k, o);
  }

  lemma MatchedKey(u: Unicode, key: Key, s: string, before: bool)
    requires WellFormedKey(key) && KeyMatches(u, key, s, before) && Folded(s[..KeyLength(key, s)]) in SPELLINGS
    ensures KeyAndOperator(u, s, before, KeyLength(key, s), OperatorAt(u, s, KeyLength(key, s)))
  {
    hide KeyLength, Folded;
    MatchHasShape(u, key, s, before);
  }

  /** A prefix starts where a key and its operator stand, and its key is the one spelled there. */
  lemma MatchIsKeyAndOperator(u: Unicode, s: string, before: bool)
    ensures IsMatch(u, s, before) <==> exists k, o :: KeyAndOperator(u, s, before, k, o)
    ensures forall k, o | KeyAndOperator(u, s, before, k, o) ::
      KeyAt(u, s, before) == k && OperatorAt(u, s, KeyAt(u, s, before)) == o
  {
    hide KeyLength, OperatorAt, KeyMatches, KeyAndOperator;
    KeysWellFormed();
    FirstKeyFinds(u, KEYS, s, before);
    PositiveKeyIsMatch(u, s, before);
    if IsMatch(u, s, before) {
      var i :| 0 <= i < |KEYS| && KeyMatches(u, KEYS[i], s, before) && KeyLength(KEYS[i], s) == KeyAt(u, s, before);
      KeyIsSpelled(u, KEYS[i], s, before);
      SpellingsAreOfKeys(Folded(s[..KeyLength(KEYS[i], s)]));
      MatchedKey(u, KEYS[i], s, before);
    }
    forall k, o | KeyAndOperator(u, s, before, k, o)
      ensures IsMatch(u, s, before) && KeyAt(u, s, before) == k && OperatorAt(u, s, k) == o
    {
      SpelledMatches(u, s, before, k, o);
      OnlyKey(u, s, before, k, o);
    }
  }

  lemma KeyIsSpelled(u: Unicode, key: Key, s: string, before: bool)
    requires WellFormedKey(key) && KeyMatches(u, key, s, before)
    ensures 0 < KeyLength(key, s) <= |s| && Folded(s[..KeyLength(key, s)]) in SpellingsOf(key)
  {
    hide KeyLength;
    KeyLengthSpells(key, s, KeyLength(key, s));
  }

  lemma SpelledMatches(u: Unicode, s: string, before: bool, k: nat, o: nat)
    requires KeyAndOperator(u, s, before, k, o)
    ensures IsMatch(u, s, before)
  {
    hide KeyLength, OperatorAt, KeyMatches, Folded;
    KeysWellFormed();
    SpellingsAreOfKeys(Folded(s[..k]));
    var i :| 0 <= i < |KEYS| && Folded(s[..k]) in SpellingsOf(KEYS[i]);
    KeyLengthSpells(KEYS[i], s, k);
    KeyMatchesIs(u, KEYS[i], s, before, k, o);
    FirstKeyFinds(u, KEYS, s, before);
    PositiveKeyIsMatch(u, s, before);
  }

  lemma KeyCharsSpelled(u: Unicode, s: string, before: bool, k: nat, o: nat)
    requires KeyAndOperator(u, s, before, k, o)
    ensures forall i | 0 <= i < k :: IsKeyChar(s[i])
  {
    hide KeyLength, Folded;
    KeysWellFormed();
    SpellingsAreOfKeys(Folded(s[..k]));
    var i :| 0 <= i < |KEYS| && Folded(s[..k]) in SpellingsOf(KEYS[i]);
    KeyLengthSpells(KEYS[i], s, k);
    KeyLengthIsKeyChars(KEYS[i], s);
  }

  /** Key, space, operator: there is one way to read them. */
  lemma OnlyKey(u: Unicode, s: string, before: bool, k: nat, o: nat)
    requires KeyAndOperator(u, s, before, k, o) && IsMatch(u, s, before)
    ensures KeyAt(u, s, before) == k && OperatorAt(u, s, k) == o
  {
    hide KeyAt, Folded;
    MatchShape(u, s, before);
    KeyCharsSpelled(u, s, before, k, o);
    OperatorIsAt(u, s, k, o);
    SameShape(u, s, KeyAt(u, s, before), OperatorAt(u, s, KeyAt(u, s, before)), k, o);
  }

  lemma SameShape(u: Unicode, s: string, k: nat, o: nat, k': nat, o': nat)
    requires Shape(u, s, k, o) && Shape(u, s, k', o')
    ensures k == k' && o == o'
  {
    forall c | IsSpace(u, c)
      ensures !IsKeyChar(c) && !IsOperator(c)
    {
      SpaceIsNoKeyChar(u, c);
    }
    assert !(o < o') && !(o' < o);
    assert IsSpace(u, s[k]) || IsOperator(s[k]);
    assert IsSpace(u, s[k']) || IsOperator(s[k']);
    assert !IsKeyChar(s[k]) && !IsKeyChar(s[k']);
    assert !(k < k') && !(k' < k);
  }

  /** Word characters and white space, as far as ASCII goes; beyond it the tables decide. */
  lemma ClassesAre(u: Unicode, c: char)
    ensures c as int >= 128 ==> IsWord(u, c) == u.word(c) && IsSpace(u, c) == u.space(c)
    ensures c as int < 128 ==>
      (IsWord(u, c) <==> c in "abcdefghijklmnopqrstuvwxyz" || c in "ABCDEFGHIJKLMNOPQRSTUVWXYZ" || c in "0123456789"
                         || c == '_')
    ensures c as int < 128 ==> (IsSpace(u, c) <==> c in "\t\n\U{B}\U{C}\r ")
  {
    SmallLetters(c);
    Capitals(c);
    Digits(c);
  }
}
