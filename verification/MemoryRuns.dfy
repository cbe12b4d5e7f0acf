/**
 Runs of the append-only log: whatever a file held before and wherever each write was torn,
 what was loaded stays loaded, in place; a completed record is the last entry; and a torn one
 adds its entry exactly when the whole entry, if not its line end, reached the file.
 */
module MemoryRuns {
  import opened Options
  import opened Normalization
  import opened TextLines
  import opened MemoryStore
  import opened Trimming

  // ----- Lines of joined texts -----

  lemma StripReturnTrims(s: string)
    ensures Trim(StripReturn(s)) == Trim(s)
  {
    if s != "" && s[|s| - 1] == '\r' {
      TrimLast(s);
    }
  }

  /** Finishing the last line with a break changes nothing that is loaded. */
  lemma {:induction false} FinishingLine(codec: Codec, entries: seq<MemoryEntry>, a: string)
    requires a != "" && a[|a| - 1] != '\n'
    ensures LoadText(codec, entries, a + "\n") == LoadText(codec, entries, a)
    decreases |a|
  {
    hide Trim, AddNew;
    var n := Break(a);
    BreakAt(a + "\n", n) by {
      assert (a + "\n")[..n] == a[..n];
    }
    if n == |a| {
      assert (a + "\n")[..n] == a && (a + "\n")[n + 1..] == "";
      StripReturnTrims(a);
      assert Lines(a + "\n") == [StripReturn(a)] + Lines("");
      assert Lines("") == [];
      SingleLine(codec, entries, a);
      SingleLine(codec, entries, StripReturn(a));
    } else {
      var line := StripReturn(a[..n]);
      assert (a + "\n")[..n] == a[..n] && (a + "\n")[n + 1..] == a[n + 1..] + "\n";
      FinishingLine(codec, AddNew(entries, Decode(codec, line)), a[n + 1..]);
      assert ([line] + Lines(a[n + 1..]))[1..] == Lines(a[n + 1..]);
      assert ([line] + Lines(a[n + 1..] + "\n"))[1..] == Lines(a[n + 1..] + "\n");
    }
  }

  lemma SingleLine(codec: Codec, entries: seq<MemoryEntry>, line: string)
    ensures LoadLines(codec, entries, [line]) == AddNew(entries, Decode(codec, line))
  {
    assert [line][1..] == [];
    assert LoadLines(codec, AddNew(entries, Decode(codec, line)), []) == AddNew(entries, Decode(codec, line));
  }

  /** Behind the repair, loading goes on from what the file held. */
  lemma RepairedBoundary(codec: Codec, file: Option<string>, rest: string)
    ensures LoadText(codec, [], Text(file) + (Repair(file) + rest)) == LoadText(codec, Load(codec, file), rest)
  {
    hide LoadLines, Lines;
    var text := Text(file);
    var whole := text + Repair(file);
    assert text + (Repair(file) + rest) == whole + rest;
    LinesConcat(whole, rest);
    LoadConcat(codec, [], Lines(whole), Lines(rest));
    if Repair(file) == "" {
      assert whole == text;
    } else {
      FinishingLine(codec, [], text);
    }
  }

  // ----- One write -----

  /** What a write leaves behind the repair: nothing, or a beginning of the entry's line. */
  lemma WrittenSplit(codec: Codec, file: Option<string>, e: MemoryEntry, n: nat)
    ensures var r := |Repair(file)|;
      var rest := codec.serialize(e) + "\n";
      var after := Text(Written(file, Buffer(codec, file, e), UpTo(n)));
      after == if n <= r then Text(file) + Repair(file)[..n]
               else Text(file) + (Repair(file) + if n - r < |rest| then rest[..n - r] else rest)
  {
    var r := |Repair(file)|;
    var rest := codec.serialize(e) + "\n";
    assert Buffer(codec, file, e) == Repair(file) + rest;
    if n <= r {
      assert (Repair(file) + rest)[..n] == Repair(file)[..n];
    } else if n - r < |rest| {
      assert (Repair(file) + rest)[..n] == Repair(file) + rest[..n - r];
    }
  }

  /** A write that stops before the entry's line, if anywhere, loads as nothing new. */
  lemma NothingReached(codec: Codec, file: Option<string>, n: nat)
    requires n <= |Repair(file)|
    ensures LoadText(codec, [], Text(file) + Repair(file)[..n]) == Load(codec, file)
  {
    hide LoadLines, Lines;
    if n == 0 {
      assert Text(file) + Repair(file)[..0] == Text(file);
    } else {
      assert Repair(file)[..n] == "\n";
      FinishingLine(codec, [], Text(file));
    }
  }

  /** However far a write gets, what was loaded before stays, in place. */
  lemma WritesOnlyExtend(codec: Codec, file: Option<string>, e: MemoryEntry, reach: Reach)
    ensures Load(codec, file) <= Load(codec, Written(file, Buffer(codec, file, e), reach))
  {
    hide LoadLines, Lines, Buffer, Repair;
    if reach.UpTo? {
      var n, r := reach.written, |Repair(file)|;
      WrittenSplit(codec, file, e, n);
      if n <= r {
        NothingReached(codec, file, n);
      } else {
        var line := codec.serialize(e) + "\n";
        var rest := if n - r < |line| then line[..n - r] else line;
        RepairedBoundary(codec, file, rest);
        LoadGrows(codec, Load(codec, file), Lines(rest));
      }
    }
  }

  /** A beginning of an entry's line decodes to the entry when it is all there, else to nothing. */
  lemma BeginningDecodes(codec: Codec, e: MemoryEntry, m: nat)
    requires codec.Valid() && codec.Whole() && 0 < m <= |codec.serialize(e)|
    ensures Decode(codec, codec.serialize(e)[..m]) == if m == |codec.serialize(e)| then Some(e) else None
  {
    var line := codec.serialize(e);
    var part := line[..m];
    assert OneLine(line);
    TrimEndFixed(part);
    if m == |line| {
      assert part == line;
    } else {
      var t := TrimEnd(part);
      assert t == line[..|t|];
      assert codec.parse(codec.serialize(e)[..|t|]) == None;
    }
  }

  lemma BeginningLines(codec: Codec, e: MemoryEntry, rest: string)
    requires codec.Valid() && rest != "" && rest <= codec.serialize(e) + "\n"
    ensures Lines(rest) == [if |rest| <= |codec.serialize(e)| then rest else codec.serialize(e)]
  {
    var line := codec.serialize(e);
    assert OneLine(line);
    if |rest| <= |line| {
      assert rest == line[..|rest|];
      assert rest[..|rest|] == rest;
      BreakAt(rest, |rest|);
    } else {
      assert rest == line + "\n";
      assert rest[..|line|] == line;
      BreakAt(rest, |line|);
      assert rest[|line| + 1..] == "";
      assert Lines("") == [];
    }
  }

  /** The entry has reached the file: all of it, with or without its line end. */
  predicate EntryReached(codec: Codec, file: Option<string>, e: MemoryEntry, reach: Reach) {
    reach.UpTo? && reach.written >= |Repair(file)| + |codec.serialize(e)|
  }

  /** What a write adds to a load, torn anywhere: the entry if all of it arrived, else nothing. */
  lemma WriteLoads(codec: Codec, file: Option<string>, e: MemoryEntry, reach: Reach)
    requires codec.Valid() && codec.Whole()
    ensures Load(codec, Written(file, Buffer(codec, file, e), reach)) ==
      AddNew(Load(codec, file), if EntryReached(codec, file, e, reach) then Some(e) else None)
  {
    hide LoadLines, Lines, Buffer, Repair, Decode, OneLine;
    if reach.UpTo? {
      var n, r := reach.written, |Repair(file)|;
      WrittenSplit(codec, file, e, n);
      assert codec.serialize(e) != "" by {
        SerializedIsLine(codec, e);
      }
      if n <= r {
        NothingReached(codec, file, n);
      } else {
        var line := codec.serialize(e) + "\n";
        var rest := if n - r < |line| then line[..n - r] else line;
        RepairedBoundary(codec, file, rest);
        BeginningLines(codec, e, rest);
        var shown := if |rest| <= |codec.serialize(e)| then rest else codec.serialize(e);
        assert shown == codec.serialize(e)[..|shown|];
        BeginningDecodes(codec, e, |shown|);
        SingleLine(codec, Load(codec, file), shown);
      }
    }
  }

  lemma SerializedIsLine(codec: Codec, e: MemoryEntry)
    requires codec.Valid()
    ensures codec.serialize(e) != ""
  {
    assert OneLine(codec.serialize(e));
  }

  // ----- Recording -----

  /** Recording an id that is new: the entry becomes the last one loaded, before it what was. */
  lemma CompletedRecordIsLast(codec: Codec, file: Option<string>, d: Decision, reach: Reach)
    requires codec.Valid() && codec.Whole()
    requires !Known(Load(codec, file), EntryOf(codec, d).id)
    requires Complete(Buffer(codec, file, EntryOf(codec, d)), reach)
    ensures Load(codec, Recorded(codec, file, d, reach)) == Load(codec, file) + [EntryOf(codec, d)]
  {
    hide Load, EntryOf;
    WriteLoads(codec, file, EntryOf(codec, d), reach);
  }

  /** Recording again, or recording other texts of the same redacted words, leaves the file alone. */
  lemma SameWordsRecordOnce(codec: Codec, file: Option<string>, a: Decision, b: Decision, reachA: Reach, reachB: Reach)
    requires codec.Valid() && codec.Whole()
    requires Words(codec.redact(a.text)) == Words(codec.redact(b.text))
    requires var e := EntryOf(codec, a); Known(Load(codec, file), e.id) || Complete(Buffer(codec, file, e), reachA)
    ensures var once := Recorded(codec, file, a, reachA);
      Recorded(codec, once, b, reachB) == once
  {
    hide Load, LoadText, Words;
    var e := EntryOf(codec, a);
    assert EntryOf(codec, b).id == e.id;
    if !Known(Load(codec, file), e.id) {
      CompletedRecordIsLast(codec, file, a, reachA);
      KnownPush(Load(codec, file), e);
    }
  }

  // ----- Runs -----

  datatype Step = Step(decision: Decision, reach: Reach)

  function Run(codec: Codec, file: Option<string>, steps: seq<Step>): Option<string> {
    if steps == [] then file
    else Recorded(codec, Run(codec, file, steps[..|steps| - 1]), steps[|steps| - 1].decision, steps[|steps| - 1].reach)
  }

  /** Over every run, torn anywhere, the entries loaded before a step are a prefix of those after it. */
  lemma {:induction false} RunsOnlyExtend(codec: Codec, file: Option<string>, steps: seq<Step>, n: nat)
    requires n <= |steps|
    ensures Load(codec, Run(codec, file, steps[..n])) <= Load(codec, Run(codec, file, steps))
    ensures DistinctEntryIds(Load(codec, Run(codec, file, steps)))
    decreases |steps|
  {
    hide Load, EntryOf, Written, Buffer;
    LoadedIdsAreDistinct(codec, Run(codec, file, steps));
    if n == |steps| {
      assert steps[..n] == steps;
    } else {
      var init := steps[..|steps| - 1];
      var last := steps[|steps| - 1];
      assert init[..n] == steps[..n];
      RunsOnlyExtend(codec, file, init, n);
      WritesOnlyExtend(codec, Run(codec, file, init), EntryOf(codec, last.decision), last.reach);
    }
  }

  lemma LoadedIdsAreDistinct(codec: Codec, file: Option<string>)
    ensures DistinctEntryIds(Load(codec, file))
  {
    LoadGrows(codec, [], Lines(Text(file)));
  }

  /** Every loaded entry was in the file at the start or is the entry of a recorded decision. */
  lemma {:induction false} LoadedWasRecorded(codec: Codec, file: Option<string>, steps: seq<Step>, e: MemoryEntry)
    requires codec.Valid() && codec.Whole() && e in Load(codec, Run(codec, file, steps))
    ensures e in Load(codec, file) || exists k | 0 <= k < |steps| :: EntryOf(codec, steps[k].decision) == e
  {
    hide Load, EntryOf, Written, Buffer;
    if steps != [] {
      var init := steps[..|steps| - 1];
      var last := steps[|steps| - 1];
      WriteLoads(codec, Run(codec, file, init), EntryOf(codec, last.decision), last.reach);
      if e in Load(codec, Run(codec, file, init)) {
        LoadedWasRecorded(codec, file, init, e);
        if e !in Load(codec, file) {
          var k :| 0 <= k < |init| && EntryOf(codec, init[k].decision) == e;
          assert steps[k] == init[k];
        }
      } else {
        assert EntryOf(codec, steps[|steps| - 1].decision) == e;
      }
    }
  }

  /** A decision whose record completed is loaded after every longer run, at the same place. */
  lemma CompletedRecordIsKept(codec: Codec, file: Option<string>, steps: seq<Step>, n: nat)
    requires codec.Valid() && codec.Whole() && n < |steps|
    requires var before := Run(codec, file, steps[..n]);
      var e := EntryOf(codec, steps[n].decision);
      !Known(Load(codec, before), e.id) && Complete(Buffer(codec, before, e), steps[n].reach)
    ensures var place := |Load(codec, Run(codec, file, steps[..n]))|;
      var entries := Load(codec, Run(codec, file, steps));
      place < |entries| && entries[place] == EntryOf(codec, steps[n].decision)
  {
    hide Load, EntryOf, Written, Buffer, Complete;
    assert steps[..n + 1][..n] == steps[..n];
    CompletedRecordIsLast(codec, Run(codec, file, steps[..n]), steps[n].decision, steps[n].reach);
    RunsOnlyExtend(codec, file, steps, n + 1);
  }
}
