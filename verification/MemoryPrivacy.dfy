/**
 What a record leaves on disk: the redacted text and area, the tags and the time of the
 decision, under the digest of the redacted words, and nothing that redaction takes out.
 */
module MemoryPrivacy {
  import opened Options
  import opened Normalization
  import opened MemoryStore
  import opened MemoryRuns

  /** The redacted area, if there is one. */
  function RedactedArea(codec: Codec, d: Decision): Option<string> {
    if d.area.Some? then Some(codec.redact(d.area.value)) else None
  }

  /** The decisions agree in all that redaction leaves of them. */
  predicate SameRedacted(codec: Codec, a: Decision, b: Decision) {
    && codec.redact(a.text) == codec.redact(b.text) && RedactedArea(codec, a) == RedactedArea(codec, b)
    && a.tags == b.tags && a.ts == b.ts
  }

  /** What is recorded depends on the redacted texts alone. */
  lemma RecordedIsRedacted(codec: Codec, file: Option<string>, a: Decision, b: Decision, reach: Reach)
    requires SameRedacted(codec, a, b)
    ensures Recorded(codec, file, a, reach) == Recorded(codec, file, b, reach)
  {
    hide Load, Buffer, Written;
  }

  /** Over whole runs, torn anywhere, the file is the same whatever redaction takes out of any decision. */
  lemma {:induction false} RunsAreRedacted(codec: Codec, file: Option<string>, xs: seq<Step>, ys: seq<Step>)
    requires |xs| == |ys|
    requires forall k | 0 <= k < |xs| ::
      xs[k].reach == ys[k].reach && SameRedacted(codec, xs[k].decision, ys[k].decision)
    ensures Run(codec, file, xs) == Run(codec, file, ys)
    decreases |xs|
  {
    hide Recorded;
    if xs != [] {
      var n := |xs| - 1;
      RunsAreRedacted(codec, file, xs[..n], ys[..n]);
      RecordedIsRedacted(codec, Run(codec, file, xs[..n]), xs[n].decision, ys[n].decision, xs[n].reach);
    }
  }

  /** The words of a text with one space between each two. */
  function OneSpaced(words: seq<string>): string {
    if words == [] then "" else words[0] + SpacedTail(words[1..])
  }

  function SpacedTail(words: seq<string>): string {
    if words == [] then "" else " " + words[0] + SpacedTail(words[1..])
  }

  lemma {:induction false} SpacedTailPush(words: seq<string>, w: string)
    ensures SpacedTail(words + [w]) == SpacedTail(words) + " " + w
  {
    if words == [] {
      assert [] + [w] == [w] && [w][1..] == [];
      assert SpacedTail([]) == "";
    } else {
      SpacedTailPush(words[1..], w);
      assert (words + [w])[1..] == words[1..] + [w];
    }
  }

  lemma {:induction false} SpacedIs(words: seq<string>)
    ensures Spaced(words) == OneSpaced(words)
  {
    if |words| == 1 {
      assert words[1..] == [];
    } else if |words| > 1 {
      var init, w := words[..|words| - 1], words[|words| - 1];
      SpacedIs(init);
      SpacedTailPush(init[1..], w);
      assert init[1..] + [w] == words[1..];
    }
  }

  /**
   What a record does, in full: nothing when an entry has the digest of the redacted words;
   else it appends the line of the redacted entry, on a line of its own, as far as the write gets.
   */
  lemma RecordAppendsRedactedEntry(codec: Codec, file: Option<string>, d: Decision, reach: Reach)
    ensures var text := codec.redact(d.text);
      var id := codec.digest(OneSpaced(Words(text)));
      var line := codec.serialize(MemoryEntry(id, text, d.tags, RedactedArea(codec, d), d.ts)) + "\n";
      var before := if file.Some? then file.value else "";
      var added := (if before != "" && before[|before| - 1] != '\n' then "\n" else "") + line;
      Recorded(codec, file, d, reach) ==
        if (exists e | e in Load(codec, file) :: e.id == id) || reach.Never? then file
        else Some(before + added[..if reach.written < |added| then reach.written else |added|])
  {
    hide Load, Words;
    var text := codec.redact(d.text);
    SpacedIs(Words(text));
    var id := codec.digest(OneSpaced(Words(text)));
    KnownIs(Load(codec, file), id);
    var e := EntryOf(codec, d);
    assert e == MemoryEntry(id, text, d.tags, RedactedArea(codec, d), d.ts);
    var added := Buffer(codec, file, e);
    assert added == Repair(file) + (codec.serialize(e) + "\n");
    assert added[..|added|] == added;
  }

  lemma KnownIs(entries: seq<MemoryEntry>, id: string)
    ensures Known(entries, id) <==> exists e | e in entries :: e.id == id
  {
    if Known(entries, id) {
      var i :| 0 <= i < |entries| && entries[i].id == id;
      assert entries[i] in entries;
    }
  }

  /** A completed record of a new id is loaded last: redacted, with tags and time as given. */
  lemma NewEntryIsRedacted(codec: Codec, file: Option<string>, d: Decision)
    requires codec.Valid() && codec.Whole()
    requires var id := codec.digest(OneSpaced(Words(codec.redact(d.text))));
      forall e | e in Load(codec, file) :: e.id != id
    ensures exists n: nat, x: MemoryEntry ::
      && Load(codec, Recorded(codec, file, d, UpTo(n))) == Load(codec, file) + [x]
      && x.text == codec.redact(d.text) && x.area == RedactedArea(codec, d) && x.tags == d.tags && x.ts == d.ts
      && x.id == codec.digest(OneSpaced(Words(codec.redact(d.text))))
  {
    hide Load, Words;
    var text := codec.redact(d.text);
    SpacedIs(Words(text));
    var e := EntryOf(codec, d);
    KnownIs(Load(codec, file), e.id);
    var n := |Buffer(codec, file, e)|;
    CompletedRecordIsLast(codec, file, d, UpTo(n));
    assert Load(codec, Recorded(codec, file, d, UpTo(n))) == Load(codec, file) + [e];
  }
}
