/** One call of `atomic_write`, statement by statement, as a run of the protocol's steps. */
module AtomicWriteCall {
  import opened TempNames
  import opened AtomicWrite
  import opened AtomicWriteSafety

  /** Which operating-system calls fail, and how many bytes a failing write got down. */
  datatype Faults = Faults(create: bool, write: bool, partial: nat, sync: bool, metadata: bool,
                           permissions: bool, rename: bool, remove: bool)

  lemma {:induction false} PossibleAppend(c: Start, s: State, run: seq<Step>, step: Step)
    requires Possible(c, s, run) && Enabled(c, After(c, s, run), step)
    ensures Possible(c, s, run + [step]) && After(c, s, run + [step]) == Apply(c, After(c, s, run), step)
    decreases |run|
  {
    hide Enabled, Apply;
    var longer := run + [step];
    if run == [] {
      assert longer[1..] == [];
    } else {
      assert longer[1..] == run[1..] + [step];
      PossibleAppend(c, Apply(c, s, run[0]), run[1..], step);
    }
  }

  /** The destination's directory with the calls made on it so far. */
  class Store {
    const start: Start
    var st: State
    ghost var history: seq<Step>

    ghost predicate Valid()
      reads this
    {
      ValidStart(start) && Possible(start, Initial(start), history) && st == After(start, Initial(start), history)
    }

    constructor (start_: Start)
      requires ValidStart(start_)
      ensures Valid() && start == start_ && history == []
    {
      start := start_;
      st := Initial(start_);
      history := [];
    }

    method Take(step: Step)
      requires Valid() && Enabled(start, st, step)
      modifies this
      ensures Valid() && st == Apply(start, old(st), step) && history == old(history) + [step]
    {
      PossibleAppend(start, Initial(start), history, step);
      st := Apply(start, st, step);
      history := history + [step];
    }

    /** A step that is neither a rename nor a power loss, which leaves the destination alone. */
    method TakeQuiet(step: Step)
      requires Valid() && Enabled(start, st, step) && Quiet(step)
      modifies this
      ensures Valid() && st == Apply(start, old(st), step) && old(history) < history
      ensures SameDestination(start, old(st), st)
    {
      hide Possible, After, ValidStart, Apply, Enabled, Invariant, Quiet, DestinationBytes;
      QuietStepSame(start, history, step);
      Take(step);
    }

    /** Removes the staged file, whatever became of it, and gives up: a file there stays if that fails. */
    method CleanUp(i: nat, faults: Faults)
      requires Valid() && At(st, i, Cleaning)
      modifies this
      ensures Valid() && old(history) < history && SameDestination(start, old(st), st)
      ensures st.counters == old(st).counters
      ensures var tmp := Temp(start, old(st).writers[i]);
        tmp in st.names <==> tmp in old(st).names && faults.remove
    {
      hide Possible, After, ValidStart, SameDestination, TempName;
      if faults.remove {
        TakeQuiet(RemoveFail(i));
      } else {
        TakeQuiet(RemoveOk(i));
      }
    }

    /** Creates and writes the temp file. */
    method Fill(i: nat, faults: Faults) returns (ok: bool)
      requires Valid() && At(st, i, Creating)
      modifies this
      ensures Valid() && old(history) < history && SameDestination(start, old(st), st)
      ensures st.counters == old(st).counters && SameCall(old(st), st, i)
      ensures if ok then At(st, i, Writing) && st.writers[i].written == |st.writers[i].payload| else At(st, i, Cleaning)
      ensures TempThere(start, old(st), st, i, faults)
    {
      hide Possible, After, ValidStart, SameDestination, TempName;
      ghost var s0 := st;
      if faults.create {
        TakeQuiet(Fail(i));
        return false;
      }
      TakeQuiet(CreateOk(i));
      ghost var s1 := st;
      var payload := st.writers[i].payload;
      if faults.write {
        TakeQuiet(WriteSome(i, if faults.partial < |payload| then faults.partial else |payload|));
        SameDestinationTrans(start, s0, s1, st);
        ghost var s2 := st;
        TakeQuiet(Fail(i));
        SameDestinationTrans(start, s0, s2, st);
        return false;
      }
      TakeQuiet(WriteSome(i, |payload|));
      SameDestinationTrans(start, s0, s1, st);
      return true;
    }

    /** Creates, writes and fsyncs the temp file; false leaves the call to be cleaned up. */
    method Stage(i: nat, faults: Faults) returns (ok: bool)
      requires Valid() && At(st, i, Creating)
      modifies this
      ensures Valid() && old(history) < history && SameDestination(start, old(st), st)
      ensures st.counters == old(st).counters && SameCall(old(st), st, i)
      ensures At(st, i, if ok then Permissions else Cleaning) && TempThere(start, old(st), st, i, faults)
    {
      hide Possible, After, ValidStart, SameDestination, TempName;
      ghost var s0 := st;
      ok := Fill(i, faults);
      if !ok {
        return;
      }
      ghost var s1 := st;
      TakeQuiet(WriteDone(i));
      SameDestinationTrans(start, s0, s1, st);
      ghost var s2 := st;
      if faults.sync {
        TakeQuiet(Fail(i));
        ok := false;
      } else {
        TakeQuiet(SyncOk(i));
      }
      SameDestinationTrans(start, s0, s2, st);
    }

    /** Carries the mode over to the temp file, where there is one to carry. */
    method CarryMode(i: nat, faults: Faults) returns (ok: bool)
      requires Valid() && At(st, i, Permissions)
      modifies this
      ensures Valid() && old(history) < history && st.counters == old(st).counters && SameCall(old(st), st, i)
      ensures SameDestination(start, old(st), st) && At(st, i, if ok then Renaming else Cleaning)
      ensures st.names == old(st).names
    {
      hide Possible, After, ValidStart, SameDestination, TempName, DestinationBytes;
      ok := true;
      if start.stem in st.names && !faults.metadata {
        if faults.permissions {
          TakeQuiet(Fail(i));
          ok := false;
        } else {
          TakeQuiet(ModeOk(i));
        }
      } else {
        TakeQuiet(ModeSkipped(i));
      }
    }

    /** Carries the mode over and renames; false leaves the call to be cleaned up. */
    method Publish(i: nat, faults: Faults) returns (ok: bool)
      requires Valid() && At(st, i, Permissions)
      modifies this
      ensures Valid() && old(history) < history && st.counters == old(st).counters && SameCall(old(st), st, i)
      ensures !ok ==> At(st, i, Cleaning) && SameDestination(start, old(st), st) && st.names == old(st).names
      ensures ok ==> start.stem in st.names && DestinationBytes(start, st) == st.writers[i].payload
      ensures ok ==> Temp(start, st.writers[i]) !in st.names
    {
      hide Possible, After, ValidStart, SameDestination, TempName, DestinationBytes;
      ghost var s0 := st;
      ok := CarryMode(i, faults);
      if !ok {
        return;
      }
      ghost var s1 := st;
      if faults.rename {
        TakeQuiet(Fail(i));
        SameDestinationTrans(start, s0, s1, st);
        return false;
      }
      RenamePublishes(start, history, i);
      Take(RenameOk(i));
      return true;
    }

    /**
     On success the destination is exactly the payload, on failure it is what it was. The temp
     name is there afterwards exactly when the call and the removal failed and the file had
     been created or was there before. Either way the call has taken the next number, and is a
     run of the protocol.
     */
    method AtomicWrite(pid: nat, payload: Bytes, faults: Faults) returns (ok: bool)
      requires Valid() && pid in st.counters
      modifies this
      ensures Valid() && old(history) < history
      ensures st.counters == old(st).counters[pid := old(st).counters[pid] + 1]
      ensures ok ==> start.stem in st.names && DestinationBytes(start, st) == payload
      ensures !ok ==> SameDestination(start, old(st), st)
      ensures var tmp := TempName(start.stem, pid, old(st).counters[pid]);
        tmp in st.names <==> !ok && faults.remove && (!faults.create || tmp in old(st).names)
    {
      hide Possible, After, ValidStart, SameDestination, TempName, DestinationBytes;
      ghost var s0 := st;
      var i := |st.writers|;
      TakeQuiet(Begin(pid, payload));
      ghost var s1 := st;
      ok := Stage(i, faults);
      SameDestinationTrans(start, s0, s1, st);
      ghost var s2 := st;
      if ok {
        ok := Publish(i, faults);
        if ok {
          return;
        }
        SameDestinationTrans(start, s0, s2, st);
      }
      ghost var s3 := st;
      CleanUp(i, faults);
      SameDestinationTrans(start, s0, s3, st);
    }
  }

  /** The destination exists in both states or in neither, with the same bytes. */
  predicate SameDestination(c: Start, s: State, t: State) {
    && (c.stem in s.names <==> c.stem in t.names)
    && (c.stem in s.names && c.stem in t.names ==> DestinationBytes(c, s) == DestinationBytes(c, t))
  }

  lemma SameDestinationTrans(c: Start, s: State, t: State, r: State)
    requires SameDestination(c, s, t) && SameDestination(c, t, r)
    ensures SameDestination(c, s, r)
  {
  }

  /** The temp name of call `i` is there once the file was created, or if it was before. */
  predicate TempThere(c: Start, s: State, t: State, i: nat, faults: Faults) {
    && i < |s.writers|
    && (Temp(c, s.writers[i]) in t.names <==> !faults.create || Temp(c, s.writers[i]) in s.names)
  }

  /** Call `i` is still the same call. */
  predicate SameCall(s: State, t: State, i: nat) {
    && |s.writers| == |t.writers| && i < |s.writers|
    && s.writers[i].pid == t.writers[i].pid && s.writers[i].sequence == t.writers[i].sequence
    && s.writers[i].payload == t.writers[i].payload
  }

  lemma ReachableHolds(c: Start, run: seq<Step>)
    requires ValidStart(c) && Possible(c, Initial(c), run)
    ensures Invariant(c, After(c, Initial(c), run))
  {
    hide Invariant;
    InitialHolds(c);
    RunKeeps(c, Initial(c), run);
  }

  lemma QuietStepSame(c: Start, run: seq<Step>, step: Step)
    requires ValidStart(c) && Possible(c, Initial(c), run) && Enabled(c, After(c, Initial(c), run), step) && Quiet(step)
    ensures SameDestination(c, After(c, Initial(c), run), Apply(c, After(c, Initial(c), run), step))
  {
    hide Possible, After, ValidStart, Invariant, TempName;
    ReachableHolds(c, run);
    var s := After(c, Initial(c), run);
    if c.stem in s.names {
      QuietStepLeavesDestination(c, s, step);
    } else if step.CreateOk? {
      TempIsTempForm(c, s.writers[step.i]);
    }
  }

  lemma RenamePublishes(c: Start, run: seq<Step>, i: nat)
    requires ValidStart(c) && Possible(c, Initial(c), run) && Enabled(c, After(c, Initial(c), run), RenameOk(i))
    ensures var s := After(c, Initial(c), run); var t := Apply(c, s, RenameOk(i));
      && c.stem in t.names && DestinationBytes(c, t) == s.writers[i].payload && Temp(c, s.writers[i]) !in t.names
  {
    hide Possible, After, ValidStart, Invariant, TempName;
    ReachableHolds(c, run);
    var s := After(c, Initial(c), run);
    assert Possible(c, Apply(c, s, RenameOk(i)), []) && After(c, Apply(c, s, RenameOk(i)), []) ==
      Apply(c, s, RenameOk(i)) by {
      NoRun(c, Apply(c, s, RenameOk(i)));
    }
    LastRenameWins(c, s, i, []);
    TempIsTempForm(c, s.writers[i]);
  }

  lemma NoRun(c: Start, s: State)
    ensures Possible(c, s, []) && After(c, s, []) == s
  {
  }
}
