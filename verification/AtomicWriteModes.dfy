/**
 What becomes of the destination's mode bits. The call sets them on the temp file behind its
 fsync, so they reach the destination, and a power loss can still take them back.
 */
module AtomicWriteModes {
  import opened TempNames
  import opened AtomicWrite
  import opened AtomicWriteSafety

  /** The destination's mode, if it exists. */
  function DestinationMode(c: Start, s: State): nat
    requires c.stem in s.names
  {
    FileAt(s, s.names[c.stem]).mode
  }

  predicate HasMode(s: State, ino: nat, mode: nat) {
    FileAt(s, ino).mode == mode
  }

  /** The destination's initial mode is carried over, as long as it could be read and was not lost. */
  predicate ModeKept(c: Start, s: State) {
    c.stem in c.names && c.names[c.stem] in c.files && !s.modeUnread && !s.modeLost ==>
      && (forall k | 0 <= k < |s.published| :: HasMode(s, s.published[k], c.files[c.names[c.stem]].mode))
      && (forall i | 0 <= i < |s.writers| && s.writers[i].pc.Renaming? ::
            HasMode(s, s.writers[i].inode, c.files[c.names[c.stem]].mode))
  }

  lemma DestinationModeIsKept(c: Start, s: State)
    requires Invariant(c, s) && ModeKept(c, s) && c.stem in c.names && !s.modeUnread && !s.modeLost
    ensures c.stem in s.names && c.names[c.stem] in c.files
    ensures DestinationMode(c, s) == c.files[c.names[c.stem]].mode
  {
    hide Directory, Numbered, AllStaged, Published, Unshared;
  }

  lemma HolderKeepsMode(c: Start, s: State, step: Step)
    requires Invariant(c, s) && ModeKept(c, s) && Enabled(c, s, step)
    requires step.WriteSome? || step.SyncOk? || step.ModeOk?
    ensures ModeKept(c, Apply(c, s, step))
  {
    hide TempName, Published, Numbered, Directory, Unshared;
    var t := Apply(c, s, step);
    HeldAlone(c, s, step.i);
    assert Staged(c, s, s.writers[step.i]);
    if c.stem in c.names && !t.modeUnread && !t.modeLost {
      DestinationModeIsKept(c, s);
      forall k | 0 <= k < |t.published|
        ensures FileAt(t, t.published[k]) == FileAt(s, s.published[k])
      {
        assert s.published[k] in s.published;
      }
    }
  }

  lemma CreateKeepsMode(c: Start, s: State, i: nat)
    requires Invariant(c, s) && ModeKept(c, s) && Enabled(c, s, CreateOk(i))
    ensures ModeKept(c, Apply(c, s, CreateOk(i)))
  {
    hide TempName, Invariant;
    var t := Apply(c, s, CreateOk(i));
    forall k | 0 <= k < |t.published|
      ensures FileAt(t, t.published[k]) == FileAt(s, s.published[k])
    {
      CreateHitsNothingPublished(c, s, i, s.published[k]);
    }
    forall j | 0 <= j < |t.writers| && t.writers[j].pc.Renaming?
      ensures FileAt(t, t.writers[j].inode) == FileAt(s, s.writers[j].inode)
    {
      CreateHitsNoOther(c, s, i, j);
    }
  }

  /** The inode a creation truncates or makes. */
  function Created(c: Start, s: State, i: nat): nat
    requires i < |s.writers|
  {
    var tmp := Temp(c, s.writers[i]);
    if tmp in s.names then s.names[tmp] else s.next
  }

  lemma CreateHitsNothingPublished(c: Start, s: State, i: nat, ino: nat)
    requires Invariant(c, s) && Enabled(c, s, CreateOk(i)) && ino in s.published
    ensures ino != Created(c, s, i)
  {
    hide TempName, Numbered, AllStaged, Destination;
    TempIsTempForm(c, s.writers[i]);
    PublishedIsAllocated(c, s);
  }

  lemma CreateHitsNoOther(c: Start, s: State, i: nat, j: nat)
    requires Invariant(c, s) && Enabled(c, s, CreateOk(i)) && j < |s.writers| && s.writers[j].pc.Renaming?
    ensures s.writers[j].inode != Created(c, s, i)
  {
    hide TempName, Published, Destination, Unshared;
    assert Staged(c, s, s.writers[j]);
    ActiveTempsDiffer(c, s, i, j);
  }

  lemma OtherStepsKeepMode(c: Start, s: State, step: Step)
    requires Invariant(c, s) && ModeKept(c, s) && Enabled(c, s, step)
    requires !step.CreateOk? && !step.WriteSome? && !step.SyncOk? && !step.ModeOk? && !step.PowerLoss?
    ensures ModeKept(c, Apply(c, s, step))
  {
    hide TempName, Numbered, AllStaged, Unshared, Directory, IsPayload, LeftBehind;
  }

  lemma PowerLossKeepsMode(c: Start, s: State, garbage: map<nat, Bytes>, lost: set<nat>, back: Rollback)
    requires Published(s) && ModeKept(c, s) && Enabled(c, s, PowerLoss(garbage, lost, back))
    ensures ModeKept(c, Apply(c, s, PowerLoss(garbage, lost, back)))
  {
    hide TempName, LeftBehind, IsPayload;
    var t := Apply(c, s, PowerLoss(garbage, lost, back));
    if c.stem in c.names && c.names[c.stem] in c.files && !t.modeUnread && !t.modeLost {
      forall k | 0 <= k < |t.published|
        ensures HasMode(t, t.published[k], c.files[c.names[c.stem]].mode)
      {
        assert t.published[k] == s.published[k] && s.published[k] in s.published;
        assert HasMode(s, s.published[k], c.files[c.names[c.stem]].mode);
      }
    }
  }

  lemma StepKeepsMode(c: Start, s: State, step: Step)
    requires Invariant(c, s) && ModeKept(c, s) && Enabled(c, s, step)
    ensures ModeKept(c, Apply(c, s, step))
  {
    hide ModeKept, Apply, Enabled, AllStaged, Published, Destination, Unshared, Directory, Numbered;
    match step
    case CreateOk(i) => CreateKeepsMode(c, s, i);
    case WriteSome(i, n) => HolderKeepsMode(c, s, step);
    case SyncOk(i) => HolderKeepsMode(c, s, step);
    case ModeOk(i) => HolderKeepsMode(c, s, step);
    case PowerLoss(garbage, lost, back) => PowerLossKeepsMode(c, s, garbage, lost, back);
    case _ => OtherStepsKeepMode(c, s, step);
  }

  lemma {:induction false} RunKeepsMode(c: Start, s: State, run: seq<Step>)
    requires Invariant(c, s) && ModeKept(c, s) && Possible(c, s, run)
    ensures ModeKept(c, After(c, s, run))
    decreases |run|
  {
    hide Invariant, ModeKept, Apply, Enabled;
    if run != [] {
      StepKeeps(c, s, run[0]);
      StepKeepsMode(c, s, run[0]);
      RunKeepsMode(c, Apply(c, s, run[0]), run[1..]);
    }
  }

  /** A step that passes over the mode of a destination that is there, or takes a mode back. */
  predicate DropsMode(c: Start, s: State, step: Step) {
    (step.ModeSkipped? && c.stem in s.names) || (step.PowerLoss? && LosesMode(s, step.lost))
  }

  /** No step of the run drops the mode. */
  predicate NoneDropsMode(c: Start, s: State, run: seq<Step>)
    requires Possible(c, s, run)
    decreases |run|
  {
    run != [] ==> !DropsMode(c, s, run[0]) && NoneDropsMode(c, Apply(c, s, run[0]), run[1..])
  }

  lemma DropsModeSetsFlags(c: Start, s: State, step: Step)
    requires Enabled(c, s, step) && !DropsMode(c, s, step) && !s.modeUnread && !s.modeLost
    ensures !Apply(c, s, step).modeUnread && !Apply(c, s, step).modeLost
  {
    hide TempName, LeftBehind, AfterPowerLoss, NamesAfter, PublishedAfter, LosesMode;
  }

  lemma {:induction false} FlagsStayDown(c: Start, s: State, run: seq<Step>)
    requires Possible(c, s, run) && NoneDropsMode(c, s, run) && !s.modeUnread && !s.modeLost
    ensures !After(c, s, run).modeUnread && !After(c, s, run).modeLost
    decreases |run|
  {
    hide Apply, Enabled, DropsMode;
    if run != [] {
      DropsModeSetsFlags(c, s, run[0]);
      FlagsStayDown(c, Apply(c, s, run[0]), run[1..]);
    }
  }

  /**
   A destination that exists keeps its mode bits through every run in which every call could
   read them and no power loss took back bits that were set behind the fsync.
   */
  lemma ModeSurvives(c: Start, run: seq<Step>)
    requires ValidStart(c) && c.stem in c.names && Possible(c, Initial(c), run)
    requires NoneDropsMode(c, Initial(c), run)
    ensures var s := After(c, Initial(c), run);
      c.stem in s.names && DestinationMode(c, s) == c.files[c.names[c.stem]].mode
  {
    hide After, Possible, Invariant, NoneDropsMode;
    InitialHolds(c);
    RunKeeps(c, Initial(c), run);
    RunKeepsMode(c, Initial(c), run);
    FlagsStayDown(c, Initial(c), run);
    DestinationModeIsKept(c, After(c, Initial(c), run));
  }

  // ----- When no run can change the mode -----

  /** Every file made since the start has the default mode, on disk as well, as the destination has. */
  predicate AllDefault(c: Start, s: State) {
    && (forall ino | ino in s.files && ino !in c.files ::
          s.files[ino].mode == c.umask && s.files[ino].savedMode == c.umask)
    && (forall ino | ino in s.published :: ino !in c.files)
    && (forall n | n in s.names && n !in c.names && n != c.stem :: s.names[n] !in c.files)
    && (forall i | 0 <= i < |s.writers| && Holding(s.writers[i]) :: s.writers[i].inode !in c.files)
  }

  /** No file in the directory has a temp name of this destination already. */
  ghost predicate NoOldTemps(c: Start) {
    forall n | n in c.names :: !TempForm(c, n)
  }

  /** The destination has the default mode. */
  predicate DefaultMode(c: Start) {
    c.stem in c.names && c.names[c.stem] in c.files && c.files[c.names[c.stem]].mode == c.umask
  }

  lemma DestinationIsDefault(c: Start, s: State)
    requires Invariant(c, s) && AllDefault(c, s) && DefaultMode(c)
    ensures c.stem in s.names && DestinationMode(c, s) == c.umask
  {
    hide Directory, Numbered, AllStaged, Unshared;
    if s.published != [] {
      assert s.published[|s.published| - 1] in s.published;
    }
  }

  lemma CreateStaysDefault(c: Start, s: State, i: nat)
    requires ValidStart(c) && Invariant(c, s) && AllDefault(c, s) && NoOldTemps(c) && Enabled(c, s, CreateOk(i))
    ensures AllDefault(c, Apply(c, s, CreateOk(i)))
  {
    hide TempName, TempForm, Numbered, AllStaged, Published, Destination, Unshared;
    TempIsTempForm(c, s.writers[i]);
  }

  lemma HolderHasFile(c: Start, s: State, i: nat)
    requires Invariant(c, s) && i < |s.writers| && Holding(s.writers[i])
    ensures s.writers[i].inode in s.files
  {
    hide TempName, Numbered, Directory, Published, Destination, Unshared;
    assert Staged(c, s, s.writers[i]);
  }

  lemma HolderStaysDefault(c: Start, s: State, step: Step)
    requires ValidStart(c) && Invariant(c, s) && AllDefault(c, s) && DefaultMode(c) && Enabled(c, s, step)
    requires step.WriteSome? || step.SyncOk? || step.ModeOk?
    ensures AllDefault(c, Apply(c, s, step))
  {
    hide TempName, Invariant;
    HolderHasFile(c, s, step.i);
    if step.ModeOk? {
      DestinationIsDefault(c, s);
    }
  }

  lemma RenameStaysDefault(c: Start, s: State, i: nat)
    requires Invariant(c, s) && AllDefault(c, s) && Enabled(c, s, RenameOk(i))
    ensures AllDefault(c, Apply(c, s, RenameOk(i)))
  {
    hide TempName, Invariant;
  }

  lemma OtherStepsStayDefault(c: Start, s: State, step: Step)
    requires Invariant(c, s) && AllDefault(c, s) && Enabled(c, s, step)
    requires step.NewProcess? || step.Begin? || step.WriteDone? || step.ModeSkipped? || step.Fail? || step.RemoveOk?
          || step.RemoveFail? || step.Kill?
    ensures AllDefault(c, Apply(c, s, step))
  {
    hide TempName, Invariant, LeftBehind, LosesMode, AfterPowerLoss, NamesAfter, PublishedAfter;
  }

  lemma PowerLossStaysDefault(c: Start, s: State, garbage: map<nat, Bytes>, lost: set<nat>, back: Rollback)
    requires Invariant(c, s) && AllDefault(c, s) && Enabled(c, s, PowerLoss(garbage, lost, back))
    ensures AllDefault(c, Apply(c, s, PowerLoss(garbage, lost, back)))
  {
    hide TempName, LeftBehind, LosesMode, Directory, Numbered, AllStaged, Unshared, NamesAfter, PublishedAfter,
      Published, Destination;
    RolledBack(c, s, back);
    assert forall w | w in Stopped(s.writers, true, 0) :: !Holding(w);
  }

  lemma StepStaysDefault(c: Start, s: State, step: Step)
    requires ValidStart(c) && Invariant(c, s) && AllDefault(c, s) && NoOldTemps(c) && DefaultMode(c)
    requires Enabled(c, s, step)
    ensures AllDefault(c, Apply(c, s, step))
  {
    hide Invariant, AllDefault, NoOldTemps, DefaultMode, ValidStart, Apply, Enabled;
    match step
    case CreateOk(i) => CreateStaysDefault(c, s, i);
    case WriteSome(i, n) => HolderStaysDefault(c, s, step);
    case SyncOk(i) => HolderStaysDefault(c, s, step);
    case ModeOk(i) => HolderStaysDefault(c, s, step);
    case RenameOk(i) => RenameStaysDefault(c, s, i);
    case PowerLoss(garbage, lost, back) => PowerLossStaysDefault(c, s, garbage, lost, back);
    case _ => OtherStepsStayDefault(c, s, step);
  }

  lemma {:induction false} RunStaysDefault(c: Start, s: State, run: seq<Step>)
    requires ValidStart(c) && Invariant(c, s) && AllDefault(c, s) && NoOldTemps(c) && DefaultMode(c)
    requires Possible(c, s, run)
    ensures AllDefault(c, After(c, s, run))
    decreases |run|
  {
    hide Invariant, AllDefault, NoOldTemps, DefaultMode, ValidStart, Apply, Enabled;
    if run != [] {
      StepKeeps(c, s, run[0]);
      StepStaysDefault(c, s, run[0]);
      RunStaysDefault(c, Apply(c, s, run[0]), run[1..]);
    }
  }

  /** One completed call of an empty payload, and a power loss that takes its mode bits back. */
  function LosingRun(c: Start, pid: nat): seq<Step> {
    [NewProcess(pid), Begin(pid, []), CreateOk(0), WriteDone(0), SyncOk(0), ModeOk(0), RenameOk(0),
     PowerLoss(map[], {c.next}, Stay)]
  }

  lemma PublishedThenLost(c: Start, s: State, ino: nat)
    requires c.stem in s.names && s.names[c.stem] == ino && ino in s.files
    ensures var run := [PowerLoss(map[], {ino}, Stay)];
      && Possible(c, s, run) && c.stem in After(c, s, run).names
      && DestinationMode(c, After(c, s, run)) == s.files[ino].savedMode
  {
    hide LeftBehind, LosesMode;
    LastStep(c, s, PowerLoss(map[], {ino}, Stay));
  }

  /** The state in which that call's temp file is `f`. */
  function Staging(c: Start, pid: nat, pc: Pc, f: File): State {
    Initial(c).(counters := map[pid := 1], writers := [Writer(pid, 0, [], pc, c.next, 0)],
                names := c.names[TempName(c.stem, pid, 0) := c.next], next := c.next + 1,
                files := c.files[c.next := f])
  }

  /** The state in which that call is about to rename. */
  function Staged0(c: Start, pid: nat): State
    requires c.stem in c.names && c.names[c.stem] in c.files
  {
    Staging(c, pid, Renaming, File([], true, c.files[c.names[c.stem]].mode, c.umask))
  }

  lemma RenamedThenLost(c: Start, pid: nat)
    requires ValidStart(c) && c.stem in c.names
    ensures var run := [RenameOk(0), PowerLoss(map[], {c.next}, Stay)];
      && Possible(c, Staged0(c, pid), run) && c.stem in After(c, Staged0(c, pid), run).names
      && DestinationMode(c, After(c, Staged0(c, pid), run)) == c.umask
  {
    hide Possible, After, TempName;
    var s := Staged0(c, pid);
    var t := Apply(c, s, RenameOk(0));
    PublishedThenLost(c, t, c.next);
    EarlierStep(c, s, RenameOk(0), [PowerLoss(map[], {c.next}, Stay)]);
    assert [RenameOk(0)] + [PowerLoss(map[], {c.next}, Stay)] == [RenameOk(0), PowerLoss(map[], {c.next}, Stay)];
  }

  lemma StagesEmptyFile(c: Start, pid: nat)
    requires TempName(c.stem, pid, 0) !in c.names
    ensures var s0 := Begun(c, pid, []); var f := File([], false, c.umask, c.umask);
      && Enabled(c, s0, CreateOk(0)) && Apply(c, s0, CreateOk(0)) == Staging(c, pid, Writing, f)
  {
    hide TempName;
  }

  lemma StagesDone(c: Start, pid: nat, f: File)
    ensures var s1 := Staging(c, pid, Writing, f);
      && Enabled(c, s1, WriteDone(0)) && Apply(c, s1, WriteDone(0)) == Staging(c, pid, Syncing, f)
  {
    hide TempName;
  }

  lemma StagesSynced(c: Start, pid: nat, f: File)
    ensures var s2 := Staging(c, pid, Syncing, f);
      && Enabled(c, s2, SyncOk(0)) && Apply(c, s2, SyncOk(0)) == Staging(c, pid, Permissions, Synced(f))
  {
    hide TempName;
  }

  lemma StagesMode(c: Start, pid: nat, f: File)
    requires ValidStart(c) && c.stem in c.names
    ensures var s3 := Staging(c, pid, Permissions, f); var mode := c.files[c.names[c.stem]].mode;
      && Enabled(c, s3, ModeOk(0)) && Apply(c, s3, ModeOk(0)) == Staging(c, pid, Renaming, f.(mode := mode))
  {
    hide TempName;
    TempNameIsNotStem(c.stem, pid, 0);
  }

  lemma StagedThen(c: Start, pid: nat, run: seq<Step>)
    requires ValidStart(c) && c.stem in c.names && TempName(c.stem, pid, 0) !in c.names
    requires Possible(c, Staged0(c, pid), run)
    ensures var whole := [CreateOk(0), WriteDone(0), SyncOk(0), ModeOk(0)] + run;
      && Possible(c, Begun(c, pid, []), whole)
      && After(c, Begun(c, pid, []), whole) == After(c, Staged0(c, pid), run)
  {
    hide Possible, After, TempName, Apply, Enabled, Staging, Begun;
    var f := File([], false, c.umask, c.umask);
    StagesEmptyFile(c, pid);
    StagesDone(c, pid, f);
    StagesSynced(c, pid, f);
    StagesMode(c, pid, Synced(f));
    var s0 := Begun(c, pid, []);
    var s1 := Staging(c, pid, Writing, f);
    var s2 := Staging(c, pid, Syncing, f);
    var s3 := Staging(c, pid, Permissions, Synced(f));
    EarlierStep(c, s3, ModeOk(0), run);
    EarlierStep(c, s2, SyncOk(0), [ModeOk(0)] + run);
    EarlierStep(c, s1, WriteDone(0), [SyncOk(0)] + ([ModeOk(0)] + run));
    EarlierStep(c, s0, CreateOk(0), [WriteDone(0)] + ([SyncOk(0)] + ([ModeOk(0)] + run)));
    assert [CreateOk(0)] + ([WriteDone(0)] + ([SyncOk(0)] + ([ModeOk(0)] + run)))
        == [CreateOk(0), WriteDone(0), SyncOk(0), ModeOk(0)] + run;
  }

  /** That run is possible, and leaves the destination with the default mode. */
  lemma PowerLossTakesModeBack(c: Start, pid: nat)
    requires ValidStart(c) && c.stem in c.names && TempName(c.stem, pid, 0) !in c.names
    ensures Possible(c, Initial(c), LosingRun(c, pid))
    ensures var s := After(c, Initial(c), LosingRun(c, pid)); c.stem in s.names && DestinationMode(c, s) == c.umask
  {
    hide Possible, After, TempName;
    var tail := [RenameOk(0), PowerLoss(map[], {c.next}, Stay)];
    RenamedThenLost(c, pid);
    StagedThen(c, pid, tail);
    BeginsThen(c, pid, [], [CreateOk(0), WriteDone(0), SyncOk(0), ModeOk(0)] + tail);
    assert [NewProcess(pid), Begin(pid, [])] + ([CreateOk(0), WriteDone(0), SyncOk(0), ModeOk(0)] + tail)
        == LosingRun(c, pid);
  }

  /** The destination has its initial mode after every run. */
  ghost predicate ModeAlwaysKept(c: Start)
    requires c.stem in c.names && c.names[c.stem] in c.files
  {
    forall run | Possible(c, Initial(c), run) ::
      var s := After(c, Initial(c), run);
      c.stem in s.names && DestinationMode(c, s) == c.files[c.names[c.stem]].mode
  }

  /**
   In a directory without old temp files, an existing destination keeps its mode through every
   run, failures and power losses anywhere, exactly when that mode is the default one.
   */
  lemma ModeAlwaysKeptIffDefault(c: Start)
    requires ValidStart(c) && c.stem in c.names && NoOldTemps(c)
    ensures ModeAlwaysKept(c) <==> c.files[c.names[c.stem]].mode == c.umask
  {
    hide Possible, After, Invariant, AllDefault, TempName;
    if c.files[c.names[c.stem]].mode == c.umask {
      forall run | Possible(c, Initial(c), run)
        ensures var s := After(c, Initial(c), run); c.stem in s.names && DestinationMode(c, s) == c.umask
      {
        InitialHolds(c);
        InitialIsDefault(c);
        RunKeeps(c, Initial(c), run);
        RunStaysDefault(c, Initial(c), run);
        DestinationIsDefault(c, After(c, Initial(c), run));
      }
    } else {
      assert TempForm(c, TempName(c.stem, 0, 0));
      PowerLossTakesModeBack(c, 0);
    }
  }

  lemma InitialIsDefault(c: Start)
    ensures AllDefault(c, Initial(c))
  {
  }
}
