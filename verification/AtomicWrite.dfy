/**
 The crash-safe write protocol of src/atomic.rs, as the steps of any number of writers to
 one destination: stage to a temp file, fsync, carry the mode over, rename, clean up on
 error. Files are inodes that names point to; what was not fsynced may be lost.
 */
module AtomicWrite {
  import opened TempNames

  type Bytes = seq<nat>

  /**
   An inode: its bytes, whether they are on disk for good, its mode bits, and the mode bits
   that are on disk for good. An fsync saves both; setting the permissions saves nothing.
   */
  datatype File = File(data: Bytes, durable: bool, mode: nat, savedMode: nat)

  /** Where a call stands. */
  datatype Pc = Creating | Writing | Syncing | Permissions | Renaming | Cleaning | Returned(ok: bool) | Killed

  datatype Writer = Writer(pid: nat, sequence: nat, payload: Bytes, pc: Pc, inode: nat, written: nat)

  /**
   The directory, the inodes, the calls so far, each process's `TEMP_SEQ`, the inodes renamed
   onto the destination in order, the temp names that stopped calls have left behind, and
   whether the destination's mode could once not be read or was once lost.
   */
  datatype State = State(names: map<string, nat>, files: map<nat, File>, next: nat, writers: seq<Writer>,
                         counters: map<nat, nat>, published: seq<nat>, strays: set<string>,
                         modeUnread: bool, modeLost: bool)

  /** The destination and the directory before the first call. */
  datatype Start = Start(stem: string, umask: nat, names: map<string, nat>, files: map<nat, File>, next: nat)

  predicate Active(w: Writer) {
    !w.pc.Returned? && !w.pc.Killed?
  }

  /** The call has its temp file staged under its name. */
  predicate Holding(w: Writer) {
    w.pc.Writing? || w.pc.Syncing? || w.pc.Permissions? || w.pc.Renaming?
  }

  function Temp(c: Start, w: Writer): string {
    TempName(c.stem, w.pid, w.sequence)
  }

  // ----- Steps -----

  datatype Rollback = Stay | ToInitial | ToPublished(k: nat)

  datatype Step =
    | NewProcess(pid: nat)
    | Begin(pid: nat, payload: Bytes)
    | CreateOk(i: nat)
    | WriteSome(i: nat, n: nat)
    | WriteDone(i: nat)
    | SyncOk(i: nat)
    | ModeOk(i: nat)
    | ModeSkipped(i: nat)
    | RenameOk(i: nat)
    | Fail(i: nat)
    | RemoveOk(i: nat)
    | RemoveFail(i: nat)
    | Kill(pid: nat)
    | PowerLoss(garbage: map<nat, Bytes>, lost: set<nat>, back: Rollback)

  predicate At(s: State, i: nat, pc: Pc) {
    i < |s.writers| && s.writers[i].pc == pc
  }

  predicate Enabled(c: Start, s: State, step: Step) {
    match step
    case NewProcess(pid) => forall i | 0 <= i < |s.writers| :: s.writers[i].pid == pid ==> !Active(s.writers[i])
    case Begin(pid, payload) => pid in s.counters
    case CreateOk(i) => At(s, i, Creating)
    case WriteSome(i, n) => At(s, i, Writing) && s.writers[i].written + n <= |s.writers[i].payload|
    case WriteDone(i) => At(s, i, Writing) && s.writers[i].written == |s.writers[i].payload|
    case SyncOk(i) => At(s, i, Syncing)
    case ModeOk(i) => At(s, i, Permissions) && c.stem in s.names
    case ModeSkipped(i) => At(s, i, Permissions)
    case RenameOk(i) => At(s, i, Renaming)
    case Fail(i) => i < |s.writers| && (s.writers[i].pc.Creating? || Holding(s.writers[i]))
    case RemoveOk(i) => At(s, i, Cleaning)
    case RemoveFail(i) => At(s, i, Cleaning)
    case Kill(pid) => true
    case PowerLoss(garbage, lost, back) => back.ToPublished? ==> back.k < |s.published|
  }

  function SetWriter(s: State, i: nat, w: Writer): State
    requires i < |s.writers|
  {
    s.(writers := s.writers[i := w])
  }

  function SetFile(s: State, ino: nat, f: File): State {
    s.(files := s.files[ino := f])
  }

  /** The bytes of an inode, none if it does not exist. */
  function FileAt(s: State, ino: nat): File {
    if ino in s.files then s.files[ino] else File([], false, 0, 0)
  }

  function Stopped(writers: seq<Writer>, all: bool, pid: nat): (r: seq<Writer>)
    ensures |r| == |writers|
    ensures forall i | 0 <= i < |r| ::
      r[i] == if Active(writers[i]) && (all || writers[i].pid == pid) then writers[i].(pc := Killed) else writers[i]
  {
    seq(|writers|, i requires 0 <= i < |writers| =>
      if Active(writers[i]) && (all || writers[i].pid == pid) then writers[i].(pc := Killed) else writers[i])
  }

  /** The temp names that calls leave behind when they are stopped. */
  function LeftBehind(c: Start, s: State, all: bool, pid: nat): set<string> {
    set i | 0 <= i < |s.writers| && Active(s.writers[i]) && (all || s.writers[i].pid == pid)
         && Temp(c, s.writers[i]) in s.names :: Temp(c, s.writers[i])
  }

  /** A published inode among these has mode bits that are not on disk for good. */
  predicate LosesMode(s: State, lost: set<nat>) {
    exists ino | ino in s.published :: ino in lost && FileAt(s, ino).savedMode != FileAt(s, ino).mode
  }

  function Apply(c: Start, s: State, step: Step): State
    requires Enabled(c, s, step)
  {
    match step
    case NewProcess(pid) => s.(counters := s.counters[pid := 0])
    case Begin(pid, payload) =>
      var q := s.counters[pid];
      s.(counters := s.counters[pid := q + 1], writers := s.writers + [Writer(pid, q, payload, Creating, 0, 0)])
    case CreateOk(i) =>
      var w := s.writers[i];
      var tmp := Temp(c, w);
      // `File::create` truncates a file that is already there
      var ino := if tmp in s.names then s.names[tmp] else s.next;
      var f := if tmp in s.names then FileAt(s, ino).(data := [], durable := false)
               else File([], false, c.umask, c.umask);
      SetWriter(SetFile(s, ino, f), i, w.(pc := Writing, inode := ino, written := 0))
        .(names := s.names[tmp := ino], next := if tmp in s.names then s.next else s.next + 1)
    case WriteSome(i, n) =>
      var w := s.writers[i];
      var f := FileAt(s, w.inode);
      SetWriter(SetFile(s, w.inode, f.(data := f.data + w.payload[w.written..w.written + n], durable := false)),
                i, w.(written := w.written + n))
    case WriteDone(i) => SetWriter(s, i, s.writers[i].(pc := Syncing))
    case SyncOk(i) =>
      var w := s.writers[i];
      SetWriter(SetFile(s, w.inode, Synced(FileAt(s, w.inode))), i, w.(pc := Permissions))
    case ModeOk(i) =>
      var w := s.writers[i];
      var mode := FileAt(s, s.names[c.stem]).mode;
      SetWriter(SetFile(s, w.inode, FileAt(s, w.inode).(mode := mode)), i, w.(pc := Renaming))
    case ModeSkipped(i) =>
      SetWriter(s, i, s.writers[i].(pc := Renaming)).(modeUnread := s.modeUnread || c.stem in s.names)
    case RenameOk(i) =>
      var w := s.writers[i];
      SetWriter(s, i, w.(pc := Returned(true)))
        .(names := (s.names - {Temp(c, w)})[c.stem := w.inode], published := s.published + [w.inode],
          strays := s.strays - {Temp(c, w)})
    case Fail(i) => SetWriter(s, i, s.writers[i].(pc := Cleaning))
    case RemoveOk(i) =>
      var w := s.writers[i];
      SetWriter(s, i, w.(pc := Returned(false))).(names := s.names - {Temp(c, w)}, strays := s.strays - {Temp(c, w)})
    case RemoveFail(i) =>
      var w := s.writers[i];
      SetWriter(s, i, w.(pc := Returned(false)))
        .(strays := s.strays + if Temp(c, w) in s.names then {Temp(c, w)} else {})
    case Kill(pid) =>
      s.(writers := Stopped(s.writers, false, pid), strays := s.strays + LeftBehind(c, s, false, pid))
    case PowerLoss(garbage, lost, back) =>
      s.(writers := Stopped(s.writers, true, 0),
         strays := s.strays + LeftBehind(c, s, true, 0),
         modeLost := s.modeLost || LosesMode(s, lost),
         files := AfterPowerLoss(s.files, garbage, lost),
         names := NamesAfter(c, s, back),
         published := PublishedAfter(s, back))
  }

  function Synced(f: File): File {
    f.(durable := true, savedMode := f.mode)
  }

  /** The directory entry of the destination may roll back to that of any earlier rename. */
  function NamesAfter(c: Start, s: State, back: Rollback): map<string, nat>
    requires back.ToPublished? ==> back.k < |s.published|
  {
    match back
    case Stay => s.names
    case ToInitial => if c.stem in c.names then s.names[c.stem := c.names[c.stem]] else s.names - {c.stem}
    case ToPublished(k) => s.names[c.stem := s.published[k]]
  }

  function PublishedAfter(s: State, back: Rollback): seq<nat>
    requires back.ToPublished? ==> back.k < |s.published|
  {
    match back
    case Stay => s.published
    case ToInitial => []
    case ToPublished(k) => s.published[..k + 1]
  }

  /** Bytes that were not on disk for good come back as anything, and any mode as the saved one. */
  function Recovered(f: File, garbage: Bytes, modeLost: bool): File {
    var mode := if modeLost then f.savedMode else f.mode;
    File(if f.durable then f.data else garbage, true, mode, mode)
  }

  function AfterPowerLoss(files: map<nat, File>, garbage: map<nat, Bytes>, lost: set<nat>): map<nat, File> {
    map ino | ino in files :: Recovered(files[ino], if ino in garbage then garbage[ino] else [], ino in lost)
  }

  // ----- Runs -----

  /** All of the file is on disk for good. */
  predicate AtRest(f: File) {
    f.durable && f.savedMode == f.mode
  }

  /** A directory at rest: no hard links, every file on disk. */
  predicate ValidStart(c: Start) {
    && (forall n | n in c.names :: c.names[n] in c.files)
    && (forall m, n | m in c.names && n in c.names && m != n :: c.names[m] != c.names[n])
    && (forall ino | ino in c.files :: ino < c.next && AtRest(c.files[ino]))
  }

  function Initial(c: Start): State {
    State(c.names, c.files, c.next, [], map[], [], {}, false, false)
  }

  /** Every step of the run is enabled where it happens. */
  predicate Possible(c: Start, s: State, run: seq<Step>)
    decreases |run|
  {
    if run == [] then true
    else Enabled(c, s, run[0]) && Possible(c, Apply(c, s, run[0]), run[1..])
  }

  function After(c: Start, s: State, run: seq<Step>): State
    requires Possible(c, s, run)
    decreases |run|
  {
    if run == [] then s else After(c, Apply(c, s, run[0]), run[1..])
  }

  // ----- The invariant -----

  predicate Directory(c: Start, s: State) {
    && (forall n | n in s.names :: s.names[n] in s.files)
    && (forall m, n | m in s.names && n in s.names && m != n :: s.names[m] != s.names[n])
    && (forall ino | ino in s.files :: ino < s.next)
  }

  /** Calls under way have numbers of their own. */
  predicate Numbered(s: State) {
    && (forall i | 0 <= i < |s.writers| && Active(s.writers[i]) ::
          s.writers[i].pid in s.counters && s.writers[i].sequence < s.counters[s.writers[i].pid])
    && (forall i, j | 0 <= i < j < |s.writers| && Active(s.writers[i]) && Active(s.writers[j]) ::
          s.writers[i].pid != s.writers[j].pid || s.writers[i].sequence != s.writers[j].sequence)
  }

  /** A staged temp file holds what its call has written so far. */
  predicate Staged(c: Start, s: State, w: Writer) {
    && Temp(c, w) in s.names && s.names[Temp(c, w)] == w.inode && w.inode in s.files
    && w.written <= |w.payload| && s.files[w.inode].data == w.payload[..w.written]
    && (!w.pc.Writing? ==> w.written == |w.payload|)
    && (w.pc.Permissions? || w.pc.Renaming? ==> s.files[w.inode].durable)
  }

  predicate AllStaged(c: Start, s: State) {
    forall i | 0 <= i < |s.writers| && Holding(s.writers[i]) :: Staged(c, s, s.writers[i])
  }

  predicate IsPayload(s: State, data: Bytes) {
    exists i | 0 <= i < |s.writers| :: s.writers[i].payload == data
  }

  /** Every inode ever published is on disk and holds one call's complete bytes. */
  predicate Published(s: State) {
    forall k | 0 <= k < |s.published| ::
      s.published[k] in s.files && s.files[s.published[k]].durable && IsPayload(s, s.files[s.published[k]].data)
  }

  /** The destination is the last inode published, or the initial one. */
  predicate Destination(c: Start, s: State) {
    && (c.stem in c.names ==>
          && c.names[c.stem] in c.files && c.names[c.stem] in s.files
          && AtRest(c.files[c.names[c.stem]]) && s.files[c.names[c.stem]] == c.files[c.names[c.stem]])
    && (s.published == [] ==>
          (c.stem in s.names <==> c.stem in c.names) && (c.stem in s.names ==> s.names[c.stem] == c.names[c.stem]))
    && (s.published != [] ==> c.stem in s.names && s.names[c.stem] == s.published[|s.published| - 1])
  }

  /** No other name reaches an inode that was ever the destination. */
  predicate Unshared(c: Start, s: State) {
    forall n | n in s.names && n != c.stem ::
      s.names[n] !in s.published && (c.stem in c.names ==> s.names[n] != c.names[c.stem])
  }

  predicate Invariant(c: Start, s: State) {
    && c.next <= s.next && (forall ino | ino in c.files :: ino in s.files)
    && Directory(c, s) && Numbered(s) && AllStaged(c, s) && Published(s) && Destination(c, s) && Unshared(c, s)
  }

  lemma InitialHolds(c: Start)
    requires ValidStart(c)
    ensures Invariant(c, Initial(c))
  {
  }

  lemma ActiveTempsDiffer(c: Start, s: State, i: nat, j: nat)
    requires Numbered(s) && i < |s.writers| && j < |s.writers| && i != j && Active(s.writers[i]) && Active(s.writers[j])
    ensures Temp(c, s.writers[i]) != Temp(c, s.writers[j])
  {
    var v, w := s.writers[i], s.writers[j];
    if Temp(c, v) == Temp(c, w) {
      TempNameInjective(c.stem, v.pid, v.sequence, c.stem, w.pid, w.sequence);
    }
  }

  // ----- Every step keeps it -----

  /** Calls keep their payloads, and published inodes their bytes. */
  lemma PublishedStays(s: State, t: State)
    requires Published(s) && t.published == s.published && |s.writers| <= |t.writers|
    requires forall i | 0 <= i < |s.writers| :: t.writers[i].payload == s.writers[i].payload
    requires forall k | 0 <= k < |s.published| ::
      && s.published[k] in s.files && s.published[k] in t.files
      && t.files[s.published[k]].data == s.files[s.published[k]].data && t.files[s.published[k]].durable
    ensures Published(t)
  {
    forall k | 0 <= k < |t.published|
      ensures IsPayload(t, t.files[t.published[k]].data)
    {
      var i :| 0 <= i < |s.writers| && s.writers[i].payload == s.files[s.published[k]].data;
      assert t.writers[i].payload == s.writers[i].payload;
    }
  }

  lemma PublishedWithSameFiles(s: State, t: State)
    requires Published(s) && t.published == s.published && t.files == s.files && |s.writers| <= |t.writers|
    requires forall i | 0 <= i < |s.writers| :: t.writers[i].payload == s.writers[i].payload
    ensures Published(t)
  {
    hide IsPayload;
    PublishedStays(s, t);
  }

  /** The staged file of one call is no other call's, and was never the destination. */
  lemma HeldAlone(c: Start, s: State, i: nat)
    requires Invariant(c, s) && i < |s.writers| && Holding(s.writers[i])
    ensures var w := s.writers[i];
      && Temp(c, w) != c.stem && w.inode !in s.published && (c.stem in c.names ==> w.inode != c.names[c.stem])
      && (forall n | n in s.names && n != Temp(c, w) :: s.names[n] != w.inode)
      && forall j | 0 <= j < |s.writers| && j != i && Holding(s.writers[j]) ::
           Temp(c, s.writers[j]) != Temp(c, w) && s.writers[j].inode != w.inode
  {
    hide Published, Destination;
    var w := s.writers[i];
    TempNameIsNotStem(c.stem, w.pid, w.sequence);
    assert Staged(c, s, w);
    forall j | 0 <= j < |s.writers| && j != i && Holding(s.writers[j])
      ensures Temp(c, s.writers[j]) != Temp(c, w) && s.writers[j].inode != w.inode
    {
      ActiveTempsDiffer(c, s, i, j);
      assert Staged(c, s, s.writers[j]);
    }
  }

  lemma NewProcessKeeps(c: Start, s: State, pid: nat)
    requires Invariant(c, s) && Enabled(c, s, NewProcess(pid))
    ensures Invariant(c, Apply(c, s, NewProcess(pid)))
  {
  }

  lemma BeginKeeps(c: Start, s: State, pid: nat, payload: Bytes)
    requires Invariant(c, s) && Enabled(c, s, Begin(pid, payload))
    ensures Invariant(c, Apply(c, s, Begin(pid, payload)))
  {
    hide Published, TempName;
    PublishedWithSameFiles(s, Apply(c, s, Begin(pid, payload)));
  }

  lemma CreateKeeps(c: Start, s: State, i: nat)
    requires Invariant(c, s) && Enabled(c, s, CreateOk(i))
    ensures Invariant(c, Apply(c, s, CreateOk(i)))
  {
    hide Published, AllStaged, TempName;
    TempNameIsNotStem(c.stem, s.writers[i].pid, s.writers[i].sequence);
    CreateKeepsPublished(c, s, i);
    PublishedIsAllocated(c, s);
    CreateKeepsStaged(c, s, i);
  }

  lemma CreateKeepsStaged(c: Start, s: State, i: nat)
    requires Invariant(c, s) && Enabled(c, s, CreateOk(i))
    ensures AllStaged(c, Apply(c, s, CreateOk(i)))
  {
    hide Published, Destination, Unshared, TempName;
    var t := Apply(c, s, CreateOk(i));
    forall j | 0 <= j < |t.writers| && Holding(t.writers[j])
      ensures Staged(c, t, t.writers[j])
    {
      if j != i {
        ActiveTempsDiffer(c, s, i, j);
        assert Staged(c, s, s.writers[j]);
      }
    }
  }

  lemma PublishedIsAllocated(c: Start, s: State)
    requires Published(s) && Directory(c, s)
    ensures forall ino | ino in s.published :: ino in s.files && ino < s.next
  {
  }

  lemma CreateKeepsPublished(c: Start, s: State, i: nat)
    requires Invariant(c, s) && Enabled(c, s, CreateOk(i))
    ensures Published(Apply(c, s, CreateOk(i)))
  {
    hide TempName;
    TempNameIsNotStem(c.stem, s.writers[i].pid, s.writers[i].sequence);
    PublishedStays(s, Apply(c, s, CreateOk(i)));
  }

  /** Changing the file and the position of a call that holds its temp file. */
  lemma HolderKeeps(c: Start, s: State, i: nat, f: File, w: Writer)
    requires Invariant(c, s) && i < |s.writers| && Holding(s.writers[i]) && Holding(w)
    requires var v := s.writers[i];
      w.pid == v.pid && w.sequence == v.sequence && w.payload == v.payload && w.inode == v.inode
    requires Staged(c, SetWriter(SetFile(s, w.inode, f), i, w), w)
    ensures Invariant(c, SetWriter(SetFile(s, w.inode, f), i, w))
  {
    hide Published, TempName;
    var t := SetWriter(SetFile(s, w.inode, f), i, w);
    HeldAlone(c, s, i);
    assert Staged(c, s, s.writers[i]);
    HolderKeepsPublished(c, s, i, f, w);
    forall j | 0 <= j < |t.writers| && Holding(t.writers[j])
      ensures Staged(c, t, t.writers[j])
    {
      if j != i {
        assert Staged(c, s, s.writers[j]);
      }
    }
  }

  lemma HolderKeepsPublished(c: Start, s: State, i: nat, f: File, w: Writer)
    requires Published(s) && i < |s.writers| && w.payload == s.writers[i].payload && w.inode !in s.published
    ensures Published(SetWriter(SetFile(s, w.inode, f), i, w))
  {
    PublishedStays(s, SetWriter(SetFile(s, w.inode, f), i, w));
  }

  lemma StageKeeps(c: Start, s: State, i: nat, step: Step)
    requires Invariant(c, s) && Enabled(c, s, step)
    requires (step.WriteSome? && step.i == i) || step == WriteDone(i) || step == SyncOk(i) || step == ModeOk(i)
    ensures Invariant(c, Apply(c, s, step))
  {
    hide Published, Destination, Numbered, Directory, TempName;
    var w := s.writers[i];
    assert Staged(c, s, w);
    var f := FileAt(s, w.inode);
    match step
    case WriteSome(_, n) =>
      assert w.payload[..w.written] + w.payload[w.written..w.written + n] == w.payload[..w.written + n];
      var longer := f.(data := f.data + w.payload[w.written..w.written + n], durable := false);
      HolderKeeps(c, s, i, longer, w.(written := w.written + n));
    case WriteDone(_) =>
      HolderKeeps(c, s, i, f, w.(pc := Syncing));
      assert s.files[w.inode := f] == s.files;
    case SyncOk(_) => HolderKeeps(c, s, i, Synced(f), w.(pc := Permissions));
    case ModeOk(_) => HolderKeeps(c, s, i, f.(mode := FileAt(s, s.names[c.stem]).mode), w.(pc := Renaming));
  }

  lemma ModeSkippedKeeps(c: Start, s: State, i: nat)
    requires Invariant(c, s) && Enabled(c, s, ModeSkipped(i))
    ensures Invariant(c, Apply(c, s, ModeSkipped(i)))
  {
    hide Published, TempName;
    var w := s.writers[i];
    assert Staged(c, s, w);
    var f := FileAt(s, w.inode);
    HolderKeeps(c, s, i, f, w.(pc := Renaming));
    assert s.files[w.inode := f] == s.files;
    PublishedIgnoresFlags(SetWriter(s, i, w.(pc := Renaming)), s.modeUnread || c.stem in s.names);
  }

  lemma PublishedIgnoresFlags(s: State, unread: bool)
    requires Published(s)
    ensures Published(s.(modeUnread := unread))
  {
    PublishedStays(s, s.(modeUnread := unread));
  }

  lemma RenameKeeps(c: Start, s: State, i: nat)
    requires Invariant(c, s) && Enabled(c, s, RenameOk(i))
    ensures Invariant(c, Apply(c, s, RenameOk(i)))
  {
    hide Published, TempName;
    var t := Apply(c, s, RenameOk(i));
    var w := s.writers[i];
    HeldAlone(c, s, i);
    assert Staged(c, s, w);
    RenameKeepsPublished(c, s, i);
    forall j | 0 <= j < |t.writers| && Holding(t.writers[j])
      ensures Staged(c, t, t.writers[j])
    {
      assert Staged(c, s, s.writers[j]);
      TempNameIsNotStem(c.stem, s.writers[j].pid, s.writers[j].sequence);
    }
  }

  lemma RenameKeepsPublished(c: Start, s: State, i: nat)
    requires Invariant(c, s) && Enabled(c, s, RenameOk(i))
    ensures Published(Apply(c, s, RenameOk(i)))
  {
    hide TempName, Destination, Unshared, Directory, Numbered;
    var t := Apply(c, s, RenameOk(i));
    var w := s.writers[i];
    assert Staged(c, s, w);
    PublishedStays(s, t.(published := s.published));
    assert t.writers[i].payload == w.payload[..w.written];
    forall k | 0 <= k < |t.published|
      ensures t.published[k] in t.files && t.files[t.published[k]].durable && IsPayload(t, t.files[t.published[k]].data)
    {
      if k < |s.published| {
        var j :| 0 <= j < |t.writers| && t.writers[j].payload == t.files[t.published[k]].data;
      }
    }
  }

  lemma FailKeeps(c: Start, s: State, i: nat)
    requires Invariant(c, s) && Enabled(c, s, Fail(i))
    ensures Invariant(c, Apply(c, s, Fail(i)))
  {
    hide Published;
    FinishedKeepsPublished(s, i, Cleaning, s.names, s.strays);
  }

  lemma FinishedKeepsPublished(s: State, i: nat, pc: Pc, names: map<string, nat>, strays: set<string>)
    requires Published(s) && i < |s.writers|
    ensures Published(SetWriter(s, i, s.writers[i].(pc := pc)).(names := names, strays := strays))
    ensures Published(SetWriter(s, i, s.writers[i].(pc := pc)))
  {
    PublishedStays(s, SetWriter(s, i, s.writers[i].(pc := pc)));
    PublishedStays(s, SetWriter(s, i, s.writers[i].(pc := pc)).(names := names, strays := strays));
  }

  lemma RemoveKeeps(c: Start, s: State, i: nat)
    requires Invariant(c, s) && Enabled(c, s, RemoveOk(i))
    ensures Invariant(c, Apply(c, s, RemoveOk(i)))
  {
    hide Published, TempName;
    var w := s.writers[i];
    var t := Apply(c, s, RemoveOk(i));
    TempNameIsNotStem(c.stem, w.pid, w.sequence);
    RemoveKeepsPublished(c, s, i);
    forall j | 0 <= j < |t.writers| && Holding(t.writers[j])
      ensures Staged(c, t, t.writers[j])
    {
      ActiveTempsDiffer(c, s, i, j);
      assert Staged(c, s, s.writers[j]);
    }
  }

  lemma RemoveKeepsPublished(c: Start, s: State, i: nat)
    requires Published(s) && Enabled(c, s, RemoveOk(i))
    ensures Published(Apply(c, s, RemoveOk(i)))
  {
    PublishedStays(s, Apply(c, s, RemoveOk(i)));
  }

  lemma RemoveFailKeeps(c: Start, s: State, i: nat)
    requires Invariant(c, s) && Enabled(c, s, RemoveFail(i))
    ensures Invariant(c, Apply(c, s, RemoveFail(i)))
  {
    hide Published;
    FinishedKeepsPublished(s, i, Returned(false), s.names, Apply(c, s, RemoveFail(i)).strays);
  }

  lemma KillKeeps(c: Start, s: State, pid: nat)
    requires Invariant(c, s)
    ensures Invariant(c, Apply(c, s, Kill(pid)))
  {
    hide Published, TempName, LeftBehind;
    PublishedWithSameFiles(s, Apply(c, s, Kill(pid)));
  }

  lemma PowerLossKeeps(c: Start, s: State, garbage: map<nat, Bytes>, lost: set<nat>, back: Rollback)
    requires Invariant(c, s) && Enabled(c, s, PowerLoss(garbage, lost, back))
    ensures Invariant(c, Apply(c, s, PowerLoss(garbage, lost, back)))
  {
    hide TempName, Published, AfterPowerLoss, LeftBehind, LosesMode;
    var t := Apply(c, s, PowerLoss(garbage, lost, back));
    PowerLossKeepsPublished(c, s, garbage, lost, back);
    PowerLossKeepsDirectory(c, s, garbage, lost, back);
    PowerLossKeepsDestination(c, s, garbage, lost, back);
    assert (forall j | 0 <= j < |t.writers| :: !Active(t.writers[j]));
  }

  /** A power loss keeps every inode, the bytes that are on disk, and a file at rest whole. */
  lemma PowerLossRecovers(files: map<nat, File>, garbage: map<nat, Bytes>, lost: set<nat>)
    ensures var r := AfterPowerLoss(files, garbage, lost);
      && r.Keys == files.Keys
      && (forall ino | ino in files :: files[ino].durable ==> r[ino].durable && r[ino].data == files[ino].data)
      && forall ino | ino in files :: AtRest(files[ino]) ==> r[ino] == files[ino]
  {
  }

  /** Which inode the destination may roll back to; every other name keeps its own. */
  lemma RolledBack(c: Start, s: State, back: Rollback)
    requires Published(s) && Destination(c, s) && (back.ToPublished? ==> back.k < |s.published|)
    ensures var names := NamesAfter(c, s, back); var published := PublishedAfter(s, back);
      && (forall n | n in names && n != c.stem :: n in s.names && names[n] == s.names[n])
      && (c.stem in names ==>
            || (c.stem in s.names && names[c.stem] == s.names[c.stem])
            || (names[c.stem] in s.published && names[c.stem] in s.files)
            || (c.stem in c.names && names[c.stem] == c.names[c.stem]))
      && forall ino | ino in published :: ino in s.published
  {
    hide IsPayload;
    if back.ToPublished? {
      assert s.published[back.k] in s.published;
    }
  }

  lemma PowerLossKeepsDirectory(c: Start, s: State, garbage: map<nat, Bytes>, lost: set<nat>, back: Rollback)
    requires Invariant(c, s) && Enabled(c, s, PowerLoss(garbage, lost, back))
    ensures var t := Apply(c, s, PowerLoss(garbage, lost, back));
      Directory(c, t) && Unshared(c, t) && t.files.Keys == s.files.Keys
  {
    hide AllStaged, Numbered, Published, AfterPowerLoss, LeftBehind, LosesMode, Stopped, AtRest, NamesAfter,
      PublishedAfter;
    PowerLossRecovers(s.files, garbage, lost);
    RolledBack(c, s, back);
  }

  lemma PowerLossKeepsDestination(c: Start, s: State, garbage: map<nat, Bytes>, lost: set<nat>, back: Rollback)
    requires Destination(c, s) && Enabled(c, s, PowerLoss(garbage, lost, back))
    ensures Destination(c, Apply(c, s, PowerLoss(garbage, lost, back)))
  {
    hide AfterPowerLoss, LeftBehind, LosesMode, Stopped, AtRest;
    PowerLossRecovers(s.files, garbage, lost);
  }

  lemma PowerLossKeepsPublished(c: Start, s: State, garbage: map<nat, Bytes>, lost: set<nat>, back: Rollback)
    requires Published(s) && Enabled(c, s, PowerLoss(garbage, lost, back))
    ensures Published(Apply(c, s, PowerLoss(garbage, lost, back)))
  {
    hide AfterPowerLoss, LeftBehind, LosesMode;
    var t := Apply(c, s, PowerLoss(garbage, lost, back));
    PowerLossRecovers(s.files, garbage, lost);
    PublishedStays(s, t.(published := s.published));
    forall k | 0 <= k < |t.published|
      ensures IsPayload(t, t.files[t.published[k]].data)
    {
      assert t.published[k] == s.published[k];
      var i :| 0 <= i < |s.writers| && s.writers[i].payload == s.files[s.published[k]].data;
      assert t.writers[i].payload == s.writers[i].payload;
    }
  }
}
