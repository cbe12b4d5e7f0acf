/** Rust's `str::lines`: line breaks end lines, and a carriage return before one is dropped. */
module TextLines {
  /** The position of the first line break, or the length. */
  function Break(s: string): (n: nat)
    ensures n <= |s| && (n < |s| ==> s[n] == '\n') && '\n' !in s[..n]
  {
    if s == "" || s[0] == '\n' then 0
    else
      assert s == [s[0]] + s[1..];
      1 + Break(s[1..])
  }

  /** A line ended by a break loses one carriage return before it. */
  function StripReturn(s: string): string {
    if s != "" && s[|s| - 1] == '\r' then s[..|s| - 1] else s
  }

  function Lines(s: string): seq<string>
    decreases |s|
  {
    if s == "" then []
    else if Break(s) == |s| then [s]
    else [StripReturn(s[..Break(s)])] + Lines(s[Break(s) + 1..])
  }

  lemma {:induction false} BreakAt(s: string, n: nat)
    requires n <= |s| && '\n' !in s[..n] && (n < |s| ==> s[n] == '\n')
    ensures Break(s) == n
  {
    if n > 0 {
      assert s[..n][0] == s[0];
      assert s[1..][..n - 1] == s[..n][1..];
      BreakAt(s[1..], n - 1);
    }
  }

  predicate EndsLine(s: string) {
    s == "" || s[|s| - 1] == '\n'
  }

  /** Behind a finished line, the lines of what follows are its own. */
  lemma {:induction false} LinesConcat(a: string, b: string)
    requires EndsLine(a)
    ensures Lines(a + b) == Lines(a) + Lines(b)
    decreases |a|
  {
    if a == "" {
      assert a + b == b;
    } else {
      var n := Break(a);
      assert n < |a| by {
        assert a[..|a|] == a;
      }
      assert (a + b)[..n] == a[..n];
      BreakAt(a + b, n);
      assert (a + b)[n + 1..] == a[n + 1..] + b;
      LinesConcat(a[n + 1..], b);
    }
  }

  // ----- What lines are -----

  /** A text without a break is one line, and a break ends a line, which loses a carriage return before it. */
  lemma LinesAre(line: string, rest: string)
    requires '\n' !in line
    ensures Lines("") == [] && (line != "" ==> Lines(line) == [line])
    ensures Lines(line + "\n" + rest)
         == [if line != "" && line[|line| - 1] == '\r' then line[..|line| - 1] else line] + Lines(rest)
  {
    assert line[..|line|] == line;
    BreakAt(line, |line|);
    var s := line + "\n" + rest;
    assert s[..|line|] == line && s[|line| + 1..] == rest;
    BreakAt(s, |line|);
  }
}
