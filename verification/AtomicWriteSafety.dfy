/** What the write protocol guarantees over whole runs, with crashes and errors anywhere. */
module AtomicWriteSafety {
  import opened TempNames
  import opened AtomicWrite

  lemma StepKeeps(c: Start, s: State, step: Step)
    requires Invariant(c, s) && Enabled(c, s, step)
    ensures Invariant(c, Apply(c, s, step))
  {
    hide Invariant, Apply;
    match step
    case NewProcess(pid) => NewProcessKeeps(c, s, pid);
    case Begin(pid, payload) => BeginKeeps(c, s, pid, payload);
    case CreateOk(i) => CreateKeeps(c, s, i);
    case WriteSome(i, n) => StageKeeps(c, s, i, step);
    case WriteDone(i) => StageKeeps(c, s, i, step);
    case SyncOk(i) => StageKeeps(c, s, i, step);
    case ModeOk(i) => StageKeeps(c, s, i, step);
    case ModeSkipped(i) => ModeSkippedKeeps(c, s, i);
    case RenameOk(i) => RenameKeeps(c, s, i);
    case Fail(i) => FailKeeps(c, s, i);
    case RemoveOk(i) => RemoveKeeps(c, s, i);
    case RemoveFail(i) => RemoveFailKeeps(c, s, i);
    case Kill(pid) => KillKeeps(c, s, pid);
    case PowerLoss(garbage, lost, back) => PowerLossKeeps(c, s, garbage, lost, back);
  }

  lemma {:induction false} RunKeeps(c: Start, s: State, run: seq<Step>)
    requires Invariant(c, s) && Possible(c, s, run)
    ensures Invariant(c, After(c, s, run))
    decreases |run|
  {
    hide Invariant, Apply, Enabled;
    if run != [] {
      StepKeeps(c, s, run[0]);
      RunKeeps(c, Apply(c, s, run[0]), run[1..]);
    }
  }

  /** The destination's bytes, if it exists. */
  function DestinationBytes(c: Start, s: State): Bytes
    requires c.stem in s.names
  {
    FileAt(s, s.names[c.stem]).data
  }

  /**
   After every run, whatever was interrupted and wherever, the destination holds its initial
   bytes or the complete bytes of one call; it is missing only if it was missing at the start.
   */
  lemma DestinationIsNeverTorn(c: Start, run: seq<Step>)
    requires ValidStart(c) && Possible(c, Initial(c), run)
    ensures var s := After(c, Initial(c), run);
      && (c.stem in c.names ==> c.stem in s.names)
      && (c.stem in s.names ==>
            || (c.stem in c.names && DestinationBytes(c, s) == c.files[c.names[c.stem]].data)
            || IsPayload(s, DestinationBytes(c, s)))
  {
    hide After, Possible, AllStaged, Numbered, Unshared, Directory, IsPayload;
    InitialHolds(c);
    RunKeeps(c, Initial(c), run);
  }

  // ----- Nothing else is touched, and nothing is left behind -----

  /** A name of the temp form for this destination. */
  ghost predicate TempForm(c: Start, n: string) {
    exists pid: nat, q: nat :: n == TempName(c.stem, pid, q)
  }

  /** Files under other names are the ones there were. */
  ghost predicate OthersUntouched(c: Start, s: State) {
    forall n | n in c.names && n != c.stem && !TempForm(c, n) ::
      n in s.names && s.names[n] == c.names[n] && c.names[n] in c.files && c.names[n] in s.files
      && s.files[c.names[n]] == c.files[c.names[n]] && AtRest(c.files[c.names[n]])
  }

  /** Each new name is a stray or that of a call under way, and strays are names that are there. */
  predicate Tidy(c: Start, s: State) {
    && (forall n | n in s.names && n != c.stem && n !in c.names :: n in s.strays || UnderWay(c, s, n))
    && (forall n | n in s.strays :: n in s.names && n != c.stem)
  }

  /** The temp name of a call under way. */
  predicate UnderWay(c: Start, s: State, n: string) {
    exists i | 0 <= i < |s.writers| :: Active(s.writers[i]) && Temp(c, s.writers[i]) == n
  }

  lemma InitialIsTidy(c: Start)
    requires ValidStart(c)
    ensures OthersUntouched(c, Initial(c)) && Tidy(c, Initial(c))
  {
    hide TempForm;
  }

  lemma TempIsTempForm(c: Start, w: Writer)
    ensures TempForm(c, Temp(c, w)) && Temp(c, w) != c.stem
  {
    hide TempName;
    TempNameIsNotStem(c.stem, w.pid, w.sequence);
  }

  lemma CreateLeavesOthers(c: Start, s: State, i: nat)
    requires Invariant(c, s) && OthersUntouched(c, s) && Enabled(c, s, CreateOk(i))
    ensures OthersUntouched(c, Apply(c, s, CreateOk(i)))
  {
    hide TempForm, TempName, AllStaged, Numbered, Published, Unshared, Destination;
    TempIsTempForm(c, s.writers[i]);
  }

  lemma HolderLeavesOthers(c: Start, s: State, i: nat, step: Step)
    requires Invariant(c, s) && OthersUntouched(c, s) && Enabled(c, s, step)
    requires (step.WriteSome? && step.i == i) || step == SyncOk(i) || step == ModeOk(i) || step == RenameOk(i)
    ensures OthersUntouched(c, Apply(c, s, step))
  {
    hide TempForm, TempName, Numbered, Published, Unshared, Destination;
    assert Staged(c, s, s.writers[i]);
    TempIsTempForm(c, s.writers[i]);
  }

  lemma OtherStepsLeaveOthers(c: Start, s: State, step: Step)
    requires Invariant(c, s) && OthersUntouched(c, s) && Enabled(c, s, step)
    requires step.NewProcess? || step.Begin? || step.WriteDone? || step.ModeSkipped? || step.Fail? || step.RemoveOk?
          || step.RemoveFail? || step.Kill? || step.PowerLoss?
    ensures OthersUntouched(c, Apply(c, s, step))
  {
    hide TempForm, TempName, Invariant, AfterPowerLoss, LeftBehind, LosesMode, AtRest, PublishedAfter;
    if step.PowerLoss? {
      PowerLossRecovers(s.files, step.garbage, step.lost);
    }
    if step.RemoveOk? {
      TempIsTempForm(c, s.writers[step.i]);
    }
  }

  lemma StepLeavesOthers(c: Start, s: State, step: Step)
    requires Invariant(c, s) && OthersUntouched(c, s) && Enabled(c, s, step)
    ensures OthersUntouched(c, Apply(c, s, step))
  {
    hide Invariant, OthersUntouched, Apply;
    match step
    case CreateOk(i) => CreateLeavesOthers(c, s, i);
    case WriteSome(i, n) => HolderLeavesOthers(c, s, i, step);
    case SyncOk(i) => HolderLeavesOthers(c, s, i, step);
    case ModeOk(i) => HolderLeavesOthers(c, s, i, step);
    case RenameOk(i) => HolderLeavesOthers(c, s, i, step);
    case _ => OtherStepsLeaveOthers(c, s, step);
  }

  /** Calls under way stay under way, under their names, but for one. */
  lemma StaysUnderWay(c: Start, s: State, t: State, except: int, n: string)
    requires UnderWay(c, s, n) && |s.writers| <= |t.writers|
    requires forall j | 0 <= j < |s.writers| && j != except && Active(s.writers[j]) ::
      Active(t.writers[j]) && Temp(c, t.writers[j]) == Temp(c, s.writers[j])
    ensures UnderWay(c, t, n) || (0 <= except < |s.writers| && Temp(c, s.writers[except]) == n)
  {
    hide TempName;
    var i :| 0 <= i < |s.writers| && Active(s.writers[i]) && Temp(c, s.writers[i]) == n;
    if i != except {
      assert Active(t.writers[i]) && Temp(c, t.writers[i]) == n;
    }
  }

  lemma CreateStaysTidy(c: Start, s: State, i: nat)
    requires Tidy(c, s) && Enabled(c, s, CreateOk(i))
    ensures Tidy(c, Apply(c, s, CreateOk(i)))
  {
    hide TempName, TempForm, UnderWay;
    var t := Apply(c, s, CreateOk(i));
    forall n | n in t.names && n != c.stem && n !in c.names
      ensures n in t.strays || UnderWay(c, t, n)
    {
      if n == Temp(c, s.writers[i]) {
        ActiveIsUnderWay(c, t, i);
      } else if n !in s.strays {
        StaysUnderWay(c, s, t, -1, n);
      }
    }
  }

  lemma ActiveIsUnderWay(c: Start, s: State, i: nat)
    requires i < |s.writers| && Active(s.writers[i])
    ensures UnderWay(c, s, Temp(c, s.writers[i]))
  {
    hide TempName;
  }

  /** A call that ends, with its temp name gone or a stray. */
  lemma EndStaysTidy(c: Start, s: State, i: nat, step: Step)
    requires Tidy(c, s) && Enabled(c, s, step)
    requires step == RenameOk(i) || step == RemoveOk(i) || step == RemoveFail(i)
    ensures Tidy(c, Apply(c, s, step))
  {
    hide TempName, TempForm, UnderWay;
    var t := Apply(c, s, step);
    TempIsTempForm(c, s.writers[i]);
    forall n | n in t.names && n != c.stem && n !in c.names
      ensures n in t.strays || UnderWay(c, t, n)
    {
      if n !in s.strays {
        StaysUnderWay(c, s, t, i, n);
      }
    }
  }

  /** Calls that are stopped: what they leave behind are strays. */
  lemma StopStaysTidy(c: Start, s: State, step: Step)
    requires Tidy(c, s) && Enabled(c, s, step) && (step.Kill? || step.PowerLoss?)
    ensures Tidy(c, Apply(c, s, step))
  {
    hide TempName, TempForm, LosesMode, AfterPowerLoss;
    var t := Apply(c, s, step);
    var all := step.PowerLoss?;
    var pid := if all then 0 else step.pid;
    forall n | n in t.names && n != c.stem && n !in c.names
      ensures n in t.strays || UnderWay(c, t, n)
    {
      if n !in s.strays {
        StoppedOrUnderWay(c, s, t, all, pid, n);
      }
    }
    forall n | n in LeftBehind(c, s, all, pid)
      ensures n in s.names && n != c.stem
    {
      var i :| 0 <= i < |s.writers| && Temp(c, s.writers[i]) == n;
      TempIsTempForm(c, s.writers[i]);
    }
  }

  lemma StoppedOrUnderWay(c: Start, s: State, t: State, all: bool, pid: nat, n: string)
    requires UnderWay(c, s, n) && t.writers == Stopped(s.writers, all, pid) && n in s.names
    ensures n in LeftBehind(c, s, all, pid) || UnderWay(c, t, n)
  {
    hide TempName;
    var i :| 0 <= i < |s.writers| && Active(s.writers[i]) && Temp(c, s.writers[i]) == n;
    if !all && s.writers[i].pid != pid {
      assert t.writers[i] == s.writers[i];
    }
  }

  lemma OtherStepsStayTidy(c: Start, s: State, step: Step)
    requires Tidy(c, s) && Enabled(c, s, step)
    requires step.NewProcess? || step.Begin? || step.WriteSome? || step.WriteDone? || step.SyncOk? || step.ModeOk?
          || step.ModeSkipped? || step.Fail?
    ensures Tidy(c, Apply(c, s, step))
  {
    hide TempName, TempForm, UnderWay;
    var t := Apply(c, s, step);
    forall n | n in t.names && n != c.stem && n !in c.names
      ensures n in t.strays || UnderWay(c, t, n)
    {
      if n !in s.strays {
        StaysUnderWay(c, s, t, -1, n);
      }
    }
  }

  lemma StepStaysTidy(c: Start, s: State, step: Step)
    requires Tidy(c, s) && Enabled(c, s, step)
    ensures Tidy(c, Apply(c, s, step))
  {
    hide Tidy, Apply, Enabled;
    match step
    case CreateOk(i) => CreateStaysTidy(c, s, i);
    case RenameOk(i) => EndStaysTidy(c, s, i, step);
    case RemoveOk(i) => EndStaysTidy(c, s, i, step);
    case RemoveFail(i) => EndStaysTidy(c, s, i, step);
    case Kill(_) => StopStaysTidy(c, s, step);
    case PowerLoss(_, _, _) => StopStaysTidy(c, s, step);
    case _ => OtherStepsStayTidy(c, s, step);
  }

  lemma {:induction false} RunStaysTidy(c: Start, s: State, run: seq<Step>)
    requires Invariant(c, s) && OthersUntouched(c, s) && Tidy(c, s) && Possible(c, s, run)
    ensures OthersUntouched(c, After(c, s, run)) && Tidy(c, After(c, s, run))
    decreases |run|
  {
    hide Invariant, OthersUntouched, Tidy, Apply, Enabled;
    if run != [] {
      StepKeeps(c, s, run[0]);
      StepLeavesOthers(c, s, run[0]);
      StepStaysTidy(c, s, run[0]);
      RunStaysTidy(c, Apply(c, s, run[0]), run[1..]);
    }
  }

  /**
   Once no call is under way, the new names in the directory, the destination's aside, are
   exactly the strays: the temp names that were there when their calls' removal failed or
   their calls were stopped, and that no later call of the same name renamed or removed. The
   rest of the directory is as it was.
   */
  lemma OnlyStraysRemain(c: Start, run: seq<Step>)
    requires ValidStart(c) && Possible(c, Initial(c), run)
    requires var s := After(c, Initial(c), run); forall i | 0 <= i < |s.writers| :: !Active(s.writers[i])
    ensures var s := After(c, Initial(c), run);
      && (forall n | n != c.stem && n !in c.names :: n in s.names <==> n in s.strays)
      && OthersUntouched(c, s)
  {
    hide After, Possible, OthersUntouched, TempName;
    InitialHolds(c);
    InitialIsTidy(c);
    RunStaysTidy(c, Initial(c), run);
  }

  /** A step after which a temp file is there without its call. */
  predicate Strands(c: Start, s: State, step: Step) {
    match step
    case RemoveFail(i) => At(s, i, Cleaning) && Temp(c, s.writers[i]) in s.names
    case Kill(pid) => LeftBehind(c, s, false, pid) != {}
    case PowerLoss(_, _, _) => LeftBehind(c, s, true, 0) != {}
    case _ => false
  }

  /** No step of the run strands a temp file. */
  predicate NoneStranded(c: Start, s: State, run: seq<Step>)
    requires Possible(c, s, run)
    decreases |run|
  {
    run != [] ==> !Strands(c, s, run[0]) && NoneStranded(c, Apply(c, s, run[0]), run[1..])
  }

  lemma {:induction false} NoStrays(c: Start, s: State, run: seq<Step>)
    requires Possible(c, s, run) && NoneStranded(c, s, run) && s.strays == {}
    ensures After(c, s, run).strays == {}
    decreases |run|
  {
    hide TempName, LeftBehind, AfterPowerLoss, LosesMode;
    if run != [] {
      NoStrays(c, Apply(c, s, run[0]), run[1..]);
    }
  }

  /** So where no removal failed and no call was stopped over its temp file, no temp file remains. */
  lemma NoTempFileRemains(c: Start, run: seq<Step>)
    requires ValidStart(c) && Possible(c, Initial(c), run) && NoneStranded(c, Initial(c), run)
    requires var s := After(c, Initial(c), run); forall i | 0 <= i < |s.writers| :: !Active(s.writers[i])
    ensures var s := After(c, Initial(c), run);
      (forall n | n in s.names && n != c.stem :: n in c.names) && OthersUntouched(c, s)
  {
    hide After, Possible, OthersUntouched, NoneStranded;
    OnlyStraysRemain(c, run);
    NoStrays(c, Initial(c), run);
  }

  /** A call that fails and whose removal fails too: the temp file stays. */
  lemma FailedRemovalLeavesTempFile(c: Start, pid: nat, payload: Bytes)
    requires ValidStart(c)
    ensures var run := [NewProcess(pid), Begin(pid, payload), CreateOk(0), Fail(0), RemoveFail(0)];
      && Possible(c, Initial(c), run)
      && var s := After(c, Initial(c), run);
      && |s.writers| == 1 && s.writers[0].pc == Returned(false)
      && TempName(c.stem, pid, 0) in s.names && s.strays == {TempName(c.stem, pid, 0)}
  {
    hide TempName, Possible, After;
    var rest := [CreateOk(0), Fail(0), RemoveFail(0)];
    CreatedThenStranded(c, pid, payload);
    BeginsThen(c, pid, payload, rest);
    assert [NewProcess(pid), Begin(pid, payload)] + rest
        == [NewProcess(pid), Begin(pid, payload), CreateOk(0), Fail(0), RemoveFail(0)];
  }

  /** The state in which the first call of a process has begun. */
  function Begun(c: Start, pid: nat, payload: Bytes): State {
    Initial(c).(counters := map[pid := 1], writers := [Writer(pid, 0, payload, Creating, 0, 0)])
  }

  lemma BeginsThen(c: Start, pid: nat, payload: Bytes, run: seq<Step>)
    requires Possible(c, Begun(c, pid, payload), run)
    ensures var whole := [NewProcess(pid), Begin(pid, payload)] + run;
      Possible(c, Initial(c), whole) && After(c, Initial(c), whole) == After(c, Begun(c, pid, payload), run)
  {
    hide Possible, After;
    var s1 := Apply(c, Initial(c), NewProcess(pid));
    assert Apply(c, s1, Begin(pid, payload)) == Begun(c, pid, payload);
    EarlierStep(c, s1, Begin(pid, payload), run);
    EarlierStep(c, Initial(c), NewProcess(pid), [Begin(pid, payload)] + run);
    assert [NewProcess(pid)] + ([Begin(pid, payload)] + run) == [NewProcess(pid), Begin(pid, payload)] + run;
  }

  lemma CreatedThenStranded(c: Start, pid: nat, payload: Bytes)
    ensures var s := Begun(c, pid, payload); var run := [CreateOk(0), Fail(0), RemoveFail(0)];
      && Possible(c, s, run)
      && var t := After(c, s, run);
      && |t.writers| == 1 && t.writers[0].pc == Returned(false)
      && TempName(c.stem, pid, 0) in t.names && t.strays == {TempName(c.stem, pid, 0)}
  {
    hide TempName, Possible, After;
    var s := Begun(c, pid, payload);
    var s1 := Apply(c, s, CreateOk(0));
    var s2 := Apply(c, s1, Fail(0));
    assert Temp(c, s2.writers[0]) == TempName(c.stem, pid, 0);
    LastStep(c, s2, RemoveFail(0));
    EarlierStep(c, s1, Fail(0), [RemoveFail(0)]);
    assert [Fail(0)] + [RemoveFail(0)] == [Fail(0), RemoveFail(0)];
    EarlierStep(c, s, CreateOk(0), [Fail(0), RemoveFail(0)]);
    assert [CreateOk(0)] + [Fail(0), RemoveFail(0)] == [CreateOk(0), Fail(0), RemoveFail(0)];
  }

  lemma LastStep(c: Start, s: State, step: Step)
    requires Enabled(c, s, step)
    ensures Possible(c, s, [step]) && After(c, s, [step]) == Apply(c, s, step)
  {
    hide Enabled, Apply;
    assert [step][1..] == [];
  }

  lemma EarlierStep(c: Start, s: State, step: Step, run: seq<Step>)
    requires Enabled(c, s, step) && Possible(c, Apply(c, s, step), run)
    ensures Possible(c, s, [step] + run) && After(c, s, [step] + run) == After(c, Apply(c, s, step), run)
  {
    hide Enabled, Apply;
    assert ([step] + run)[1..] == run;
  }

  // ----- The last rename wins -----

  predicate Quiet(step: Step) {
    !step.RenameOk? && !step.PowerLoss?
  }

  lemma QuietStepLeavesDestination(c: Start, s: State, step: Step)
    requires Invariant(c, s) && Enabled(c, s, step) && Quiet(step) && c.stem in s.names
    ensures var t := Apply(c, s, step);
      c.stem in t.names && t.names[c.stem] == s.names[c.stem] && DestinationBytes(c, t) == DestinationBytes(c, s)
  {
    hide TempName, Published, Numbered, AllStaged, Destination, Unshared, LeftBehind;
    if step.WriteSome? || step.SyncOk? || step.ModeOk? {
      HolderLeavesDestination(c, s, step);
    } else if step.CreateOk? || step.RemoveOk? {
      TempIsTempForm(c, s.writers[step.i]);
    }
  }

  lemma HolderLeavesDestination(c: Start, s: State, step: Step)
    requires Invariant(c, s) && Enabled(c, s, step) && c.stem in s.names
    requires step.WriteSome? || step.SyncOk? || step.ModeOk?
    ensures var t := Apply(c, s, step);
      c.stem in t.names && t.names[c.stem] == s.names[c.stem] && DestinationBytes(c, t) == DestinationBytes(c, s)
  {
    hide TempName, Published, Numbered, Destination, Unshared;
    HeldAlone(c, s, step.i);
    assert Staged(c, s, s.writers[step.i]);
  }

  lemma {:induction false} QuietRunLeavesDestination(c: Start, s: State, run: seq<Step>)
    requires Invariant(c, s) && Possible(c, s, run) && c.stem in s.names && forall k | 0 <= k < |run| :: Quiet(run[k])
    ensures c.stem in After(c, s, run).names && DestinationBytes(c, After(c, s, run)) == DestinationBytes(c, s)
    decreases |run|
  {
    hide Invariant, Apply, Enabled, DestinationBytes;
    if run != [] {
      StepKeeps(c, s, run[0]);
      QuietStepLeavesDestination(c, s, run[0]);
      QuietRunLeavesDestination(c, Apply(c, s, run[0]), run[1..]);
    }
  }

  /** After a rename, and until the next one or a power loss, the destination is that call's payload. */
  lemma LastRenameWins(c: Start, s: State, i: nat, run: seq<Step>)
    requires Invariant(c, s) && Enabled(c, s, RenameOk(i)) && Possible(c, Apply(c, s, RenameOk(i)), run)
    requires forall k | 0 <= k < |run| :: Quiet(run[k])
    ensures var t := After(c, Apply(c, s, RenameOk(i)), run);
      c.stem in t.names && DestinationBytes(c, t) == s.writers[i].payload
  {
    hide Possible, After, Numbered, Published, Unshared, TempName;
    StepKeeps(c, s, RenameOk(i));
    assert Staged(c, s, s.writers[i]);
    var t := Apply(c, s, RenameOk(i));
    assert s.writers[i].payload[..s.writers[i].written] == s.writers[i].payload;
    QuietRunLeavesDestination(c, t, run);
  }
}
