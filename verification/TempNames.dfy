/** The temp-file names of src/atomic.rs: `.{stem}.tmp.{pid}.{seq}`. */
module TempNames {
  import opened Decimal

  function TempName(stem: string, pid: nat, seq_: nat): string {
    "." + stem + ".tmp." + Numeral(pid) + "." + Numeral(seq_)
  }

  /** Numerals behind the last dot of a text can be read off again. */
  lemma LastFieldIsUnique(a: string, m: string, b: string, n: string)
    requires AllDigits(m) && AllDigits(n) && a + "." + m == b + "." + n
    ensures a == b && m == n
  {
    var s, t := a + "." + m, b + "." + n;
    assert s[|a|] == '.' && t[|b|] == '.';
    assert (forall i | |a| < i < |s| :: IsDigit(s[i])) by {
      assert forall i | |a| < i < |s| :: s[i] == m[i - |a| - 1];
    }
    assert (forall i | |b| < i < |t| :: IsDigit(t[i])) by {
      assert forall i | |b| < i < |t| :: t[i] == n[i - |b| - 1];
    }
    assert !(|a| < |b|) && !(|b| < |a|);
    assert a == s[..|a|] == t[..|b|] == b;
    assert m == s[|a| + 1..] == t[|b| + 1..] == n;
  }

  /** Temp names are injective in stem, process and sequence number. */
  lemma TempNameInjective(stem: string, pid: nat, q: nat, stem': string, pid': nat, q': nat)
    requires TempName(stem, pid, q) == TempName(stem', pid', q')
    ensures stem == stem' && pid == pid' && q == q'
  {
    var a, b := "." + stem + ".tmp", "." + stem' + ".tmp";
    assert TempName(stem, pid, q) == (a + "." + Numeral(pid)) + "." + Numeral(q);
    assert TempName(stem', pid', q') == (b + "." + Numeral(pid')) + "." + Numeral(q');
    LastFieldIsUnique(a + "." + Numeral(pid), Numeral(q), b + "." + Numeral(pid'), Numeral(q'));
    LastFieldIsUnique(a, Numeral(pid), b, Numeral(pid'));
    NumeralInjective(pid, pid');
    NumeralInjective(q, q');
    assert stem == a[1..|a| - 4] && stem' == b[1..|b| - 4];
  }

  /** A temp name is never its destination's name. */
  lemma TempNameIsNotStem(stem: string, pid: nat, q: nat)
    ensures TempName(stem, pid, q) != stem
  {
    assert |TempName(stem, pid, q)| > |stem|;
  }

  /** The form of a temp name, by example. */
  lemma TempNameExample()
    ensures TempName("index.json", 42, 7) == ".index.json.tmp.42.7"
  {
    assert Numeral(42) == "42" && Numeral(7) == "7";
  }
}
