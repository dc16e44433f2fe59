/** What the writes of the config protocol carry and when they take effect
    (`save_file_config`, `FileConfigWriteGuard` and `lock_file_config_for_update_at` of
    `src/config.rs`): every write in the history is the one its process asked for, and a
    save or a guarded update that gets the lock ends in the file, whatever other processes
    do in between. */
module ConfigTransactions {
  import opened Basics
  import opened ConfigProtocol

  // ---------- edits by field ----------

  /** The last edit of a field decides its value. */
  lemma {:induction false} LastEditWins(c: Config, edits: seq<Edit>, i: nat)
    requires i < |edits| && forall j :: i < j < |edits| ==> edits[j].field != edits[i].field
    ensures Field(ApplyEdits(c, edits), edits[i].field) == if edits[i].Set? then Some(edits[i].value) else None
  {
    var n := |edits| - 1;
    if i < n {
      LastEditWins(c, edits[..n], i);
    }
  }

  // ---------- what was asked for ----------

  /** The config of the process's latest call to save, begun while it was idle. */
  ghost function AskedSave(s: State, steps: seq<Step>, p: Pid): Option<Config> {
    if steps == [] then None
    else
      var front, last := steps[..|steps| - 1], steps[|steps| - 1];
      var now := Run(s, front);
      if last.BeginSave? && last.p == p && p in now.procs && now.procs[p].Idle? then Some(last.config)
      else AskedSave(s, front, p)
  }

  /** The edits the process made to its guard since it loaded the file or last replaced it. */
  ghost function AskedEdits(s: State, steps: seq<Step>, p: Pid): seq<Edit> {
    if steps == [] then []
    else
      var front, last := steps[..|steps| - 1], steps[|steps| - 1];
      var now := Run(s, front);
      if last.p != p || p !in now.procs then AskedEdits(s, front, p)
      else if last.EditGuard? && now.procs[p].Holding? then AskedEdits(s, front, p) + [last.edit]
      else if last.Load? && now.procs[p].LockedToUpdate? then []
      else if last.Rename? && now.procs[p].Committing? then []
      else AskedEdits(s, front, p)
  }

  /** What a process holds is what it asked for. */
  ghost predicate HoldsAsked(s: State, steps: seq<Step>, p: Pid, proc: Proc) {
    match proc
    case WaitingToSave(config) => AskedSave(s, steps, p) == Some(config)
    case LockedToSave(config) => AskedSave(s, steps, p) == Some(config)
    case Saving(config) => AskedSave(s, steps, p) == Some(config)
    case Holding(_, pending) => AskedEdits(s, steps, p) == pending
    case Committing(_, pending) => AskedEdits(s, steps, p) == pending
    case Committed(_) => AskedEdits(s, steps, p) == []
    case _ => true
  }

  lemma OtherStepHoldsAsked(s: State, steps: seq<Step>, p: Pid)
    requires steps != [] && steps[|steps| - 1].p != p
    requires var now := Run(s, steps[..|steps| - 1]);
             p in now.procs ==> HoldsAsked(s, steps[..|steps| - 1], p, now.procs[p])
    ensures var now := Run(s, steps);
            p in now.procs ==> HoldsAsked(s, steps, p, now.procs[p])
  {
    var front, last := steps[..|steps| - 1], steps[|steps| - 1];
    assert AskedSave(s, steps, p) == AskedSave(s, front, p) && AskedEdits(s, steps, p) == AskedEdits(s, front, p);
    OthersLeaveOne(Run(s, front), last, p);
  }

  lemma OthersLeaveOne(s: State, step: Step, p: Pid)
    requires step.p != p
    ensures p in Next(s, step).procs <==> p in s.procs
    ensures p in s.procs ==> Next(s, step).procs[p] == s.procs[p]
  {
  }

  /** What a step can make of its own process. */
  ghost predicate ProcMoves(step: Step, from: Proc, to: Proc) {
    || to == from || to.Idle? || to.WaitingToUpdate? || to.LockedToUpdate? || to.Saved?
    || (from.Idle? && step.BeginSave? && to == WaitingToSave(step.config))
    || (from.WaitingToSave? && to == LockedToSave(from.config) && step.TryLock?)
    || (from.LockedToSave? && to == Saving(from.config) && step.StartWrite?)
    || (from.LockedToUpdate? && step.Load? && to.Holding? && to.pending == [])
    || (from.Holding? && step.EditGuard? && to.Holding? && to.pending == from.pending + [step.edit])
    || (from.Holding? && step.StartWrite? && to.Committing? && to.pending == from.pending)
    || (from.Committing? && step.WriteFails? && to.Holding? && to.pending == from.pending)
    || (from.Committing? && step.Rename? && to.Committed?)
    || (from.Committed? && step.FinishSync? && to.Holding? && to.pending == [])
  }

  /** And if the process stays as it is, its step was none of those that ask for something. */
  lemma OwnStepMoves(s: State, step: Step)
    requires step.p in s.procs
    ensures var from, to := s.procs[step.p], Next(s, step).procs[step.p];
            && ProcMoves(step, from, to)
            && (step.BeginSave? && from.Idle? ==> to == WaitingToSave(step.config))
            && (step.EditGuard? && from.Holding? ==> to.Holding? && to.pending == from.pending + [step.edit])
            && (step.Load? && from.LockedToUpdate? ==> to.Idle? || (to.Holding? && to.pending == []))
            && (step.Rename? && from.Committing? ==> to.Committed?)
  {
  }

  lemma StepHoldsAsked(s: State, steps: seq<Step>, p: Pid)
    requires steps != []
    requires var now := Run(s, steps[..|steps| - 1]);
             p in now.procs ==> HoldsAsked(s, steps[..|steps| - 1], p, now.procs[p])
    ensures var now := Run(s, steps);
            p in now.procs ==> HoldsAsked(s, steps, p, now.procs[p])
  {
    var front, last := steps[..|steps| - 1], steps[|steps| - 1];
    var now := Run(s, front);
    if last.p != p {
      OtherStepHoldsAsked(s, steps, p);
    } else if p in now.procs {
      OwnStepMoves(now, last);
      MoveHoldsAsked(s, steps, p, now.procs[p], Next(now, last).procs[p]);
    }
  }

  lemma MoveHoldsAsked(s: State, steps: seq<Step>, p: Pid, from: Proc, to: Proc)
    requires steps != []
    requires var now, last := Run(s, steps[..|steps| - 1]), steps[|steps| - 1];
             && last.p == p && p in now.procs && now.procs[p] == from
             && HoldsAsked(s, steps[..|steps| - 1], p, from) && ProcMoves(last, from, to)
             && (last.BeginSave? && from.Idle? ==> to == WaitingToSave(last.config))
             && (last.EditGuard? && from.Holding? ==> to.Holding? && to.pending == from.pending + [last.edit])
             && (last.Load? && from.LockedToUpdate? ==> to.Idle? || (to.Holding? && to.pending == []))
             && (last.Rename? && from.Committing? ==> to.Committed?)
    ensures HoldsAsked(s, steps, p, to)
  {
  }

  lemma {:induction false} RunHoldsAsked(file: FileState, pids: set<Pid>, steps: seq<Step>, p: Pid)
    ensures var now := Run(Initial(file, pids), steps);
            p in now.procs ==> HoldsAsked(Initial(file, pids), steps, p, now.procs[p])
  {
    if steps != [] {
      RunHoldsAsked(file, pids, steps[..|steps| - 1], p);
      StepHoldsAsked(Initial(file, pids), steps, p);
    }
  }

  /** Write `k` of the history was made by its process's rename at step `i`, and carries what
      that process had asked for by then. */
  ghost predicate WroteAsked(s: State, steps: seq<Step>, k: nat, w: Write, i: nat) {
    && i < |steps| && steps[i] == Rename(w.pid)
    && |Run(s, steps[..i]).history| == k
    && match w
       case SaveWrite(_, p, config) => AskedSave(s, steps[..i], p) == Some(config)
       case GuardWrite(_, p, edits) => AskedEdits(s, steps[..i], p) == edits
  }

  /** In every run each write carries exactly what its process asked for: the config of its
      latest save, or its edits since the load or its last write, in order. */
  lemma {:induction false} HistoryWasAsked(file: FileState, pids: set<Pid>, steps: seq<Step>, k: nat)
    requires k < |Run(Initial(file, pids), steps).history|
    ensures exists i: nat ::
              WroteAsked(Initial(file, pids), steps, k, Run(Initial(file, pids), steps).history[k], i)
  {
    var s, n := Initial(file, pids), |steps| - 1;
    var front, last := steps[..n], steps[n];
    var now, after := Run(s, front), Run(s, steps);
    if k < |now.history| {
      HistoryWasAsked(file, pids, front, k);
      var w := now.history[k];
      var i: nat :| WroteAsked(s, front, k, w, i);
      assert front[..i] == steps[..i] && after.history[k] == w;
      assert WroteAsked(s, steps, k, w, i);
    } else {
      RunHoldsAsked(file, pids, front, last.p);
      assert last.Rename?;
      assert WroteAsked(s, steps, k, after.history[k], n);
    }
  }

  // ---------- a lock holder is alone ----------

  function Own(steps: seq<Step>, p: Pid): seq<Step> {
    if steps == [] then []
    else
      var front, last := Own(steps[..|steps| - 1], p), steps[|steps| - 1];
      if last.p == p then front + [last] else front
  }

  /** The two states look alike to the holder of the lock. */
  ghost predicate SameTo(s: State, t: State, p: Pid) {
    && s.file == t.file && s.lock == t.lock && s.acquisitions == t.acquisitions && s.history == t.history
    && p in s.procs && p in t.procs && s.procs[p] == t.procs[p]
  }

  lemma OthersChangeNothing(file: FileState, s: State, step: Step, p: Pid)
    requires Inv(file, s) && s.lock == Some(p) && step.p != p
    ensures SameTo(Next(s, step), s, p)
  {
  }

  lemma SameStep(s: State, t: State, step: Step)
    requires SameTo(s, t, step.p)
    ensures SameTo(Next(s, step), Next(t, step), step.p)
  {
  }

  lemma {:induction false} RunInv(file: FileState, s: State, steps: seq<Step>)
    requires Inv(file, s)
    ensures Inv(file, Run(s, steps))
  {
    if steps != [] {
      var n := |steps| - 1;
      RunInv(file, s, steps[..n]);
      if steps[n].Rename? {
        RenameStep(file, Run(s, steps[..n]), steps[n].p);
      } else {
        QuietStep(file, Run(s, steps[..n]), steps[n]);
      }
    }
  }

  /** While a process holds the lock, a run with any steps of others in between is, to it, the
      run of its own steps. */
  lemma {:induction false} HolderAlone(file: FileState, s: State, steps: seq<Step>, p: Pid)
    requires Inv(file, s) && p in s.procs
    requires forall k :: 0 <= k < |Own(steps, p)| ==> Run(s, Own(steps, p)[..k]).lock == Some(p)
    requires s.lock == Some(p) && Run(s, Own(steps, p)).lock == Some(p)
    ensures SameTo(Run(s, steps), Run(s, Own(steps, p)), p)
  {
    if steps != [] {
      var n := |steps| - 1;
      var front, last := steps[..n], steps[n];
      var own := Own(front, p);
      RunInv(file, s, front);
      if last.p == p {
        assert Own(steps, p)[..|own|] == own;
        assert forall k :: 0 <= k < |own| ==> Own(steps, p)[..k] == own[..k];
        HolderAlone(file, s, front, p);
        SameStep(Run(s, front), Run(s, own), last);
      } else {
        HolderAlone(file, s, front, p);
        OthersChangeNothing(file, Run(s, front), last, p);
      }
    }
  }

  /** Others never move a process. */
  lemma {:induction false} OthersLeaveProc(s: State, steps: seq<Step>, p: Pid)
    requires p in s.procs && Own(steps, p) == []
    ensures p in Run(s, steps).procs && Run(s, steps).procs[p] == s.procs[p]
  {
    if steps != [] {
      assert steps[|steps| - 1].p != p;
      OthersLeaveProc(s, steps[..|steps| - 1], p);
    }
  }

  // ---------- a save, and a guarded update, take effect ----------

  lemma RunTwo(s: State, a: Step, b: Step)
    ensures Run(s, [a, b]) == Next(Next(s, a), b) && Run(s, [a, b][..1]) == Next(s, a)
    ensures Run(s, [a, b][..0]) == s
  {
    assert [a, b][..1] == [a] && [a][..0] == [];
    assert Run(s, [a]) == Next(s, a);
  }

  /** A save that has the lock replaces the file by its config, and nothing of anybody else comes
      in between. */
  lemma SaveTakesEffect(file: FileState, s: State, steps: seq<Step>, p: Pid, config: Config)
    requires Inv(file, s) && p in s.procs && s.procs[p] == LockedToSave(config)
    requires Own(steps, p) == [StartWrite(p), Rename(p)]
    ensures var after := Run(s, steps);
            && after.file == Holds(config)
            && after.history == s.history + [SaveWrite(s.acquisitions, p, config)]
            && p in after.procs && after.procs[p] == Saved
  {
    RunTwo(s, StartWrite(p), Rename(p));
    HolderAlone(file, s, steps, p);
  }

  function EditSteps(p: Pid, edits: seq<Edit>): seq<Step> {
    seq(|edits|, i requires 0 <= i < |edits| => EditGuard(p, edits[i]))
  }

  lemma Overwrite(s: State, p: Pid, a: Proc, b: Proc)
    ensures s.(procs := s.procs[p := a]).(procs := s.procs[p := a][p := b]) == s.(procs := s.procs[p := b])
  {
    assert s.procs[p := a][p := b] == s.procs[p := b];
  }

  lemma EditStep(s: State, p: Pid, config: Config, pending: seq<Edit>, e: Edit)
    requires p in s.procs
    ensures Next(s.(procs := s.procs[p := Holding(config, pending)]), EditGuard(p, e)) ==
            s.(procs := s.procs[p := Holding(ApplyEdit(config, e), pending + [e])])
  {
    Overwrite(s, p, Holding(config, pending), Holding(ApplyEdit(config, e), pending + [e]));
  }

  lemma {:induction false} RunEdits(s: State, p: Pid, config: Config, edits: seq<Edit>)
    requires p in s.procs && s.procs[p] == Holding(config, [])
    ensures Run(s, EditSteps(p, edits)) == s.(procs := s.procs[p := Holding(ApplyEdits(config, edits), edits)])
  {
    if edits == [] {
      assert s.procs[p := Holding(config, [])] == s.procs;
    } else {
      var n := |edits| - 1;
      RunEdits(s, p, config, edits[..n]);
      assert EditSteps(p, edits)[..n] == EditSteps(p, edits[..n]);
      EditStep(s, p, ApplyEdits(config, edits[..n]), edits[..n], edits[n]);
      assert edits == edits[..n] + [edits[n]];
    }
  }

  lemma {:induction false} RunConcat(s: State, a: seq<Step>, b: seq<Step>)
    ensures Run(s, a + b) == Run(Run(s, a), b)
  {
    if b == [] {
      assert a + b == a;
    } else {
      var n := |b| - 1;
      RunConcat(s, a, b[..n]);
      assert (a + b)[..|a + b| - 1] == a + b[..n];
    }
  }

  /** The config a load hands to a guard: the file's, or the default one if there is no file. */
  ghost predicate Loads(file: FileState, config: Config) {
    match file
    case Absent => config == map[]
    case Corrupt => false
    case Holds(c) => config == c
  }

  lemma LoadStep(s: State, p: Pid, config: Config)
    requires p in s.procs && s.procs[p].LockedToUpdate? && Loads(s.file, config)
    ensures Next(s, Load(p)) == s.(procs := s.procs[p := Holding(config, [])])
  {
  }

  lemma LoadRun(s: State, p: Pid, config: Config)
    requires p in s.procs && s.procs[p].LockedToUpdate? && Loads(s.file, config)
    ensures Run(s, [Load(p)]) == s.(procs := s.procs[p := Holding(config, [])])
  {
    LoadStep(s, p, config);
    assert [Load(p)][..0] == [] && Run(s, []) == s;
  }

  /** The guard's own steps up to any point keep the lock. */
  lemma GuardKeepsLock(s: State, p: Pid, config: Config, edits: seq<Edit>, k: nat)
    requires p in s.procs && s.procs[p].LockedToUpdate? && Loads(s.file, config) && s.lock == Some(p)
    requires k <= |edits|
    ensures Run(s, [Load(p)] + EditSteps(p, edits)[..k]) ==
            s.(procs := s.procs[p := Holding(ApplyEdits(config, edits[..k]), edits[..k])])
  {
    var loaded := s.(procs := s.procs[p := Holding(config, [])]);
    LoadRun(s, p, config);
    assert EditSteps(p, edits)[..k] == EditSteps(p, edits[..k]);
    RunConcat(s, [Load(p)], EditSteps(p, edits[..k]));
    RunEdits(loaded, p, config, edits[..k]);
    Overwrite(s, p, Holding(config, []), Holding(ApplyEdits(config, edits[..k]), edits[..k]));
  }

  function GuardSteps(p: Pid, edits: seq<Edit>): seq<Step> {
    [Load(p)] + EditSteps(p, edits) + [StartWrite(p), Rename(p)]
  }

  lemma WriteAlone(s: State, p: Pid, config: Config, edits: seq<Edit>, k: nat)
    requires p in s.procs && s.procs[p] == Holding(config, edits) && s.lock == Some(p) && k <= 2
    ensures var now := Run(s, [StartWrite(p), Rename(p)][..k]);
            && now.lock == Some(p) && p in now.procs
            && (k == 2 ==> now.file == Holds(config) && now.procs[p] == Committed(config) &&
                           now.history == s.history + [GuardWrite(s.acquisitions, p, edits)])
  {
    RunTwo(s, StartWrite(p), Rename(p));
    assert [StartWrite(p), Rename(p)][..2] == [StartWrite(p), Rename(p)];
  }

  lemma GuardAlone(s: State, p: Pid, config: Config, edits: seq<Edit>, k: nat)
    requires p in s.procs && s.procs[p].LockedToUpdate? && Loads(s.file, config) && s.lock == Some(p)
    requires k <= |edits| + 3
    ensures var now := Run(s, GuardSteps(p, edits)[..k]);
            && now.lock == Some(p) && p in now.procs
            && (k == |edits| + 3 ==>
                  && now.file == Holds(ApplyEdits(config, edits))
                  && now.history == s.history + [GuardWrite(s.acquisitions, p, edits)]
                  && now.procs[p] == Committed(ApplyEdits(config, edits)))
  {
    var own, first := GuardSteps(p, edits), [Load(p)] + EditSteps(p, edits);
    if k == 0 {
      assert own[..0] == [];
    } else if k <= |first| {
      assert own[..k] == [Load(p)] + EditSteps(p, edits)[..k - 1];
      GuardKeepsLock(s, p, config, edits, k - 1);
    } else {
      var more := [StartWrite(p), Rename(p)][..k - |first|];
      assert own[..k] == first + more;
      RunConcat(s, first, more);
      GuardHolds(s, p, config, edits);
      WriteAlone(Run(s, first), p, ApplyEdits(config, edits), edits, k - |first|);
    }
  }

  lemma GuardHolds(s: State, p: Pid, config: Config, edits: seq<Edit>)
    requires p in s.procs && s.procs[p].LockedToUpdate? && Loads(s.file, config) && s.lock == Some(p)
    ensures Run(s, [Load(p)] + EditSteps(p, edits)) ==
            s.(procs := s.procs[p := Holding(ApplyEdits(config, edits), edits)])
  {
    assert edits[..|edits|] == edits && EditSteps(p, edits)[..|edits|] == EditSteps(p, edits);
    GuardKeepsLock(s, p, config, edits, |edits|);
  }

  /** A guarded update that has the lock replaces the file by what it loaded with its edits
      applied, whatever others do in between. */
  lemma UpdateTakesEffect(file: FileState, s: State, steps: seq<Step>, p: Pid, config: Config, edits: seq<Edit>)
    requires Inv(file, s) && p in s.procs && s.procs[p].LockedToUpdate? && Loads(s.file, config)
    requires Own(steps, p) == GuardSteps(p, edits)
    ensures var after := Run(s, steps);
            && after.file == Holds(ApplyEdits(config, edits))
            && after.history == s.history + [GuardWrite(s.acquisitions, p, edits)]
  {
    var own := GuardSteps(p, edits);
    assert own[..|own|] == own;
    forall k | 0 <= k <= |own| ensures Run(s, own[..k]).lock == Some(p) {
      GuardAlone(s, p, config, edits, k);
    }
    GuardAlone(s, p, config, edits, |own|);
    HolderAlone(file, s, steps, p);
  }

  /** A waiting process gets a free lock; a busy lock leaves everything as it is; a process that
      gives up leaves everything but itself as it is. */
  lemma LockIsTaken(s: State, p: Pid)
    requires p in s.procs && (s.procs[p].WaitingToSave? || s.procs[p].WaitingToUpdate?)
    ensures Next(s, GiveUp(p)) == s.(procs := s.procs[p := Idle])
    ensures var after := Next(s, TryLock(p));
            && (s.lock.Some? ==> after == s)
            && (s.lock.None? ==>
                  && after.lock == Some(p) && after.acquisitions == s.acquisitions + 1
                  && after.file == s.file && after.history == s.history
                  && after.procs[p] ==
                     if s.procs[p].WaitingToSave? then LockedToSave(s.procs[p].config) else LockedToUpdate)
  {
  }

  /** From the call to the rename, with the steps of others anywhere in between: a save that finds
      the lock free ends with the file equal to its config. */
  lemma SaveCompletes(
    file: FileState, s: State, waiting: seq<Step>, writing: seq<Step>, p: Pid, config: Config)
    requires Inv(file, s) && p in s.procs && s.procs[p].Idle?
    requires Own(waiting, p) == [] && Own(writing, p) == [StartWrite(p), Rename(p)]
    requires Run(Next(s, BeginSave(p, config)), waiting).lock.None?
    ensures Run(Next(Run(Next(s, BeginSave(p, config)), waiting), TryLock(p)), writing).file == Holds(config)
  {
    var begun := Next(s, BeginSave(p, config));
    QuietStep(file, s, BeginSave(p, config));
    OthersLeaveProc(begun, waiting, p);
    RunInv(file, begun, waiting);
    var waited := Run(begun, waiting);
    LockIsTaken(waited, p);
    QuietStep(file, waited, TryLock(p));
    SaveTakesEffect(file, Next(waited, TryLock(p)), writing, p, config);
  }

  /** And a guarded update ends with the file as it was when the lock was taken, edited. */
  lemma UpdateCompletes(
    file: FileState, s: State, waiting: seq<Step>, writing: seq<Step>, p: Pid, config: Config, edits: seq<Edit>)
    requires Inv(file, s) && p in s.procs && s.procs[p].Idle?
    requires Own(waiting, p) == [] && Own(writing, p) == GuardSteps(p, edits)
    requires var waited := Run(Next(s, BeginUpdate(p)), waiting);
             waited.lock.None? && Loads(waited.file, config)
    ensures Run(Next(Run(Next(s, BeginUpdate(p)), waiting), TryLock(p)), writing).file ==
            Holds(ApplyEdits(config, edits))
  {
    var begun := Next(s, BeginUpdate(p));
    QuietStep(file, s, BeginUpdate(p));
    OthersLeaveProc(begun, waiting, p);
    RunInv(file, begun, waiting);
    var waited := Run(begun, waiting);
    LockIsTaken(waited, p);
    QuietStep(file, waited, TryLock(p));
    UpdateTakesEffect(file, Next(waited, TryLock(p)), writing, p, config, edits);
  }

  /** How a transaction ends. A failed write leaves the file alone: a guard keeps its edits and the
      lock, a save gives up. After the rename the write stands, synced or not: a guard goes on
      from it, a save returns the lock. A corrupt file, a dropped guard and a crash return the
      lock and leave the file alone. */
  lemma TransactionsEnd(s: State, p: Pid, synced: bool)
    requires p in s.procs && s.lock == Some(p)
    ensures var proc := s.procs[p];
            && (proc.Committing? ==>
                  Next(s, WriteFails(p)) == s.(procs := s.procs[p := Holding(proc.config, proc.pending)]))
            && (proc.Committed? ==>
                  Next(s, FinishSync(p, synced)) == s.(procs := s.procs[p := Holding(proc.config, [])]))
            && (forall step ::
                  || (step == WriteFails(p) && proc.Saving?)
                  || (step == FinishSync(p, synced) && proc.Saved?)
                  || (step == Load(p) && proc.LockedToUpdate? && s.file.Corrupt?)
                  || (step == LoadFails(p) && proc.LockedToUpdate?)
                  || (step == DropGuard(p) && proc.Holding?)
                  || step == Crash(p)
                  ==> Next(s, step) == s.(lock := None, procs := s.procs[p := Idle]))
  {
  }
}
