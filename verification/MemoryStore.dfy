/**
 The append-only log of src/memory.rs: one serialized entry per line, one buffer per append,
 a missing line end repaired by the next append, bad lines skipped on load and ids kept once.
 The serializer, the redactor and the digest are parameters; a file is text or absent.
 */
module MemoryStore {
  import opened Options
  import opened Normalization
  import opened TextLines
  import opened Trimming

  datatype MemoryEntry = MemoryEntry(id: string, text: string, tags: seq<string>, area: Option<string>, ts: string)

  predicate DistinctEntryIds(entries: seq<MemoryEntry>) {
    forall i, j | 0 <= i < j < |entries| :: entries[i].id != entries[j].id
  }

  /** A text that fills a line of its own and is left alone by trimming. */
  predicate OneLine(s: string) {
    s != "" && '\n' !in s && !WhiteSpace(s[0]) && !WhiteSpace(s[|s| - 1])
  }

  datatype Codec = Codec(serialize: MemoryEntry -> string, parse: string -> Option<MemoryEntry>,
                         redact: string -> string, digest: string -> string)
  {
    /** Serializing fills one line and parses back. */
    ghost predicate Valid() {
      forall e :: OneLine(serialize(e)) && parse(serialize(e)) == Some(e)
    }

    /** No serialized entry parses before its last character. */
    ghost predicate Whole() {
      forall e, k | 0 <= k < |serialize(e)| :: parse(serialize(e)[..k]) == None
    }
  }

  // ----- Loading -----

  /** The entry on a line: none when it is blank or does not parse. */
  function Decode(codec: Codec, line: string): Option<MemoryEntry> {
    if Trim(line) == "" then None else codec.parse(Trim(line))
  }

  predicate Known(entries: seq<MemoryEntry>, id: string) {
    exists i | 0 <= i < |entries| :: entries[i].id == id
  }

  /** The first entry with an id is kept. */
  function AddNew(entries: seq<MemoryEntry>, x: Option<MemoryEntry>): seq<MemoryEntry> {
    if x.None? || Known(entries, x.value.id) then entries else entries + [x.value]
  }

  function LoadLines(codec: Codec, entries: seq<MemoryEntry>, lines: seq<string>): seq<MemoryEntry>
    decreases |lines|
  {
    if lines == [] then entries else LoadLines(codec, AddNew(entries, Decode(codec, lines[0])), lines[1..])
  }

  function LoadText(codec: Codec, entries: seq<MemoryEntry>, text: string): seq<MemoryEntry> {
    LoadLines(codec, entries, Lines(text))
  }

  /** The files of a workspace in order; a missing one is passed over. */
  function LoadFiles(codec: Codec, files: seq<Option<string>>): seq<MemoryEntry> {
    if files == [] then []
    else
      var before := LoadFiles(codec, files[..|files| - 1]);
      match files[|files| - 1]
      case Some(text) => LoadText(codec, before, text)
      case None => before
  }

  /** The entries of one file. */
  function Load(codec: Codec, file: Option<string>): seq<MemoryEntry> {
    LoadText(codec, [], Text(file))
  }

  function Text(file: Option<string>): string {
    match file case Some(text) => text case None => ""
  }

  /** Loading only appends, and keeps ids distinct. */
  lemma {:induction false} LoadGrows(codec: Codec, entries: seq<MemoryEntry>, lines: seq<string>)
    ensures entries <= LoadLines(codec, entries, lines)
    ensures DistinctEntryIds(entries) ==> DistinctEntryIds(LoadLines(codec, entries, lines))
    decreases |lines|
  {
    if lines != [] {
      LoadGrows(codec, AddNew(entries, Decode(codec, lines[0])), lines[1..]);
    }
  }

  lemma {:induction false} LoadConcat(codec: Codec, entries: seq<MemoryEntry>, a: seq<string>, b: seq<string>)
    ensures LoadLines(codec, entries, a + b) == LoadLines(codec, LoadLines(codec, entries, a), b)
    decreases |a|
  {
    hide Decode, AddNew;
    if a == [] {
      assert a + b == b;
    } else {
      LoadConcat(codec, AddNew(entries, Decode(codec, a[0])), a[1..], b);
      assert (a + b)[1..] == a[1..] + b;
    }
  }

  /** The loading loop with its set of seen ids, over any number of files. */
  method LoadEntries(codec: Codec, files: seq<Option<string>>) returns (out: seq<MemoryEntry>)
    ensures out == LoadFiles(codec, files)
    ensures DistinctEntryIds(out)
  {
    hide LoadLines, Lines, Decode;
    out := [];
    var seen: set<string> := {};
    for f := 0 to |files|
      invariant out == LoadFiles(codec, files[..f])
      invariant DistinctEntryIds(out)
      invariant forall id :: id in seen <==> Known(out, id)
    {
      assert files[..f + 1][..f] == files[..f];
      if files[f].Some? {
        out, seen := LoadFileLines(codec, out, seen, Lines(files[f].value));
      }
    }
    assert files[..|files|] == files;
  }

  method LoadFileLines(codec: Codec, entries: seq<MemoryEntry>, ids: set<string>, lines: seq<string>)
    returns (out: seq<MemoryEntry>, seen: set<string>)
    requires DistinctEntryIds(entries) && forall id :: id in ids <==> Known(entries, id)
    ensures out == LoadLines(codec, entries, lines) && DistinctEntryIds(out)
    ensures forall id :: id in seen <==> Known(out, id)
  {
    hide Lines;
    out, seen := entries, ids;
    for i := 0 to |lines|
      invariant LoadLines(codec, out, lines[i..]) == LoadLines(codec, entries, lines)
      invariant DistinctEntryIds(out)
      invariant forall id :: id in seen <==> Known(out, id)
    {
      assert lines[i..][1..] == lines[i + 1..];
      var line := Trim(lines[i]);
      if line == "" {
        continue;
      }
      var parsed := codec.parse(line);
      if parsed.Some? && parsed.value.id !in seen {
        assert Known(out + [parsed.value], parsed.value.id) by {
          assert (out + [parsed.value])[|out|] == parsed.value;
        }
        KnownPush(out, parsed.value);
        out, seen := out + [parsed.value], seen + {parsed.value.id};
      }
    }
    assert lines[|lines|..] == [];
  }

  lemma KnownPush(entries: seq<MemoryEntry>, e: MemoryEntry)
    ensures forall id :: Known(entries + [e], id) <==> Known(entries, id) || id == e.id
  {
    forall id | Known(entries, id) || id == e.id
      ensures Known(entries + [e], id)
    {
      if Known(entries, id) {
        var i :| 0 <= i < |entries| && entries[i].id == id;
        assert (entries + [e])[i].id == id;
      } else {
        assert (entries + [e])[|entries|].id == id;
      }
    }
  }

  // ----- Recording -----

  /** What a caller records. */
  datatype Decision = Decision(text: string, tags: seq<string>, area: Option<string>, ts: string)

  /** The entry of a decision: redacted first, its id the digest of the redacted words. */
  function EntryOf(codec: Codec, d: Decision): MemoryEntry {
    var text := codec.redact(d.text);
    MemoryEntry(codec.digest(Normalized(text)), text, d.tags,
                match d.area { case Some(a) => Some(codec.redact(a)) case None => None }, d.ts)
  }

  /** The line break that repairs an unfinished last line. */
  function Repair(file: Option<string>): string {
    if Text(file) != "" && Text(file)[|Text(file)| - 1] != '\n' then "\n" else ""
  }

  function Buffer(codec: Codec, file: Option<string>, e: MemoryEntry): string {
    Repair(file) + codec.serialize(e) + "\n"
  }

  /** How far a write gets: never to the file, or its first so many characters. */
  datatype Reach = Never | UpTo(written: nat)

  function Written(file: Option<string>, buffer: string, reach: Reach): Option<string> {
    match reach
    case Never => file
    case UpTo(n) => Some(Text(file) + if n < |buffer| then buffer[..n] else buffer)
  }

  predicate Complete(buffer: string, reach: Reach) {
    reach.UpTo? && reach.written >= |buffer|
  }

  function Recorded(codec: Codec, file: Option<string>, d: Decision, reach: Reach): Option<string> {
    var e := EntryOf(codec, d);
    if Known(Load(codec, file), e.id) then file else Written(file, Buffer(codec, file, e), reach)
  }

  datatype Outcome = Stored(entry: MemoryEntry, isNew: bool) | Failed

  /** The first loaded entry with the id. */
  function Find(entries: seq<MemoryEntry>, id: string): (r: Option<MemoryEntry>)
    ensures r.Some? <==> Known(entries, id)
    ensures r.Some? ==> r.value in entries && r.value.id == id
  {
    if entries == [] then None
    else if entries[0].id == id then Some(entries[0])
    else
      assert Known(entries, id) ==> Known(entries[1..], id) by {
        if Known(entries, id) {
          var i :| 0 <= i < |entries| && entries[i].id == id;
          assert entries[1..][i - 1].id == id;
        }
      }
      Find(entries[1..], id)
  }

  /** One store file. `reach` is what the environment lets a write do. */
  class MemoryFile {
    const codec: Codec
    var content: Option<string>

    constructor (c: Codec, initial: Option<string>)
      ensures codec == c && content == initial
    {
      codec, content := c, initial;
    }

    /** One buffer, one write; a torn write leaves a beginning of the buffer. */
    method Append(e: MemoryEntry, reach: Reach) returns (ok: bool)
      modifies this
      ensures content == Written(old(content), Buffer(codec, old(content), e), reach)
      ensures ok == Complete(Buffer(codec, old(content), e), reach)
    {
      var line := codec.serialize(e);
      var needsBreak := false;
      if content.Some? && content.value != "" {
        needsBreak := content.value[|content.value| - 1] != '\n';
      }
      var buffer := if needsBreak then "\n" + line + "\n" else line + "\n";
      assert buffer == Buffer(codec, content, e);
      if reach.Never? {
        return false;
      }
      ok := reach.written >= |buffer|;
      content := Some(Text(content) + if reach.written < |buffer| then buffer[..reach.written] else buffer);
    }

    /** Records a decision, or returns the entry that already has its id. */
    method Record(d: Decision, reach: Reach) returns (r: Outcome)
      modifies this
      ensures content == Recorded(codec, old(content), d, reach)
      ensures var e := EntryOf(codec, d);
        var entries := Load(codec, old(content));
        if Known(entries, e.id) then r.Stored? && !r.isNew && r.entry in entries && r.entry.id == e.id
        else if Complete(Buffer(codec, old(content), e), reach) then r == Stored(e, true)
        else r == Failed
      ensures r.Stored? && r.isNew ==>
        && r.entry.text == codec.redact(d.text) && r.entry.tags == d.tags && r.entry.ts == d.ts
        && r.entry.area == (if d.area.Some? then Some(codec.redact(d.area.value)) else None)
    {
      hide LoadText, Buffer, Written;
      var safeText := codec.redact(d.text);
      var safeArea := match d.area { case Some(a) => Some(codec.redact(a)) case None => None };
      var normalized := Normalize(safeText);
      var id := codec.digest(normalized);
      var existing := LoadEntries(codec, [content]);
      OneFile(codec, content);
      var found := Find(existing, id);
      if found.Some? {
        return Stored(found.value, false);
      }
      var entry := MemoryEntry(id, safeText, d.tags, safeArea, d.ts);
      var ok := Append(entry, reach);
      r := if ok then Stored(entry, true) else Failed;
    }
  }

  lemma OneFile(codec: Codec, file: Option<string>)
    ensures LoadFiles(codec, [file]) == Load(codec, file)
  {
    hide LoadLines;
    assert [file][..0] == [];
    assert LoadFiles(codec, []) == [];
    assert LoadText(codec, [], "") == [] by {
      NoLines(codec);
    }
  }

  lemma NoLines(codec: Codec)
    ensures LoadText(codec, [], "") == []
  {
  }
}
