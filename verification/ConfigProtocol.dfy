/** The cross-process protocol for the shared config file (`FileConfigWriteGuard`,
    `lock_file_config_for_update_at`, `acquire_config_write_lock`,
    `write_file_config_atomically` and `save_file_config` of `src/config.rs`, with `LockFile`
    of `src/utils.rs`), as a state machine over the steps of any number of processes.

    A run is a list of steps in any order; a step that is not enabled does nothing. */
module ConfigProtocol {
  import opened Basics

  type Pid = nat
  type Config = map<string, string>

  /** A change a guard user makes to the dereferenced config. */
  datatype Edit = Set(field: string, value: string) | Unset(field: string)

  datatype FileState = Absent | Corrupt | Holds(config: Config)

  /** A write that reached the atomic rename, with the lock acquisition it happened under. */
  datatype Write =
    | GuardWrite(session: nat, pid: Pid, edits: seq<Edit>)
    | SaveWrite(session: nat, pid: Pid, config: Config)

  datatype Proc =
    | Idle
    | WaitingToUpdate
    | WaitingToSave(config: Config)
    | LockedToUpdate
    | LockedToSave(config: Config)
    | Holding(config: Config, pending: seq<Edit>)      // the guard, with its edits since the last rename
    | Committing(config: Config, pending: seq<Edit>)   // temporary file being written
    | Committed(config: Config)                        // renamed, syncing
    | Saving(config: Config)
    | Saved
  {
    predicate HasLock() {
      LockedToUpdate? || LockedToSave? || Holding? || Committing? || Committed? || Saving? || Saved?
    }
  }

  datatype State = State(
    file: FileState,
    lock: Option<Pid>,
    acquisitions: nat,
    procs: map<Pid, Proc>,
    history: seq<Write>)

  datatype Step =
    | BeginUpdate(p: Pid)
    | BeginSave(p: Pid, config: Config)   // the config may come from anywhere, a stale read included
    | TryLock(p: Pid)
    | GiveUp(p: Pid)                      // timed out, or the lock file could not be opened
    | Load(p: Pid)
    | LoadFails(p: Pid)
    | EditGuard(p: Pid, edit: Edit)
    | StartWrite(p: Pid)
    | WriteFails(p: Pid)                  // any failure before the rename
    | Rename(p: Pid)
    | FinishSync(p: Pid, synced: bool)    // an error here comes after the write took effect
    | DropGuard(p: Pid)
    | Crash(p: Pid)                       // the OS releases the lock with the process

  // ---------- edits ----------

  function ApplyEdit(c: Config, e: Edit): Config {
    match e
    case Set(f, v) => c[f := v]
    case Unset(f) => c - {f}
  }

  function ApplyEdits(c: Config, edits: seq<Edit>): Config {
    if edits == [] then c else ApplyEdit(ApplyEdits(c, edits[..|edits| - 1]), edits[|edits| - 1])
  }

  function Field(c: Config, f: string): Option<string> {
    if f in c then Some(c[f]) else None
  }

  predicate Touches(edits: seq<Edit>, f: string) {
    exists i :: 0 <= i < |edits| && edits[i].field == f
  }

  /** Edits keep every field they do not touch, and settle every field they do. */
  lemma {:induction false} EditsByField(c: Config, d: Config, edits: seq<Edit>, f: string)
    ensures !Touches(edits, f) ==> Field(ApplyEdits(c, edits), f) == Field(c, f)
    ensures Touches(edits, f) ==> Field(ApplyEdits(c, edits), f) == Field(ApplyEdits(d, edits), f)
  {
    if edits != [] {
      var n := |edits| - 1;
      EditsByField(c, d, edits[..n], f);
      assert forall i :: 0 <= i < n ==> edits[..n][i] == edits[i];
      assert Touches(edits, f) <==> Touches(edits[..n], f) || edits[n].field == f;
    }
  }

  lemma ApplyEditsSnoc(c: Config, edits: seq<Edit>, e: Edit)
    ensures ApplyEdits(c, edits + [e]) == ApplyEdit(ApplyEdits(c, edits), e)
  {
  }

  // ---------- serial meaning ----------

  /** What a load sees: the default config for a missing file. */
  function Contents(file: FileState): Config {
    if file.Holds? then file.config else map[]
  }

  /** A write taken alone: a guard edits what is there, a save replaces it. */
  function ApplyWrite(file: FileState, w: Write): FileState {
    match w
    case GuardWrite(_, _, edits) => Holds(ApplyEdits(Contents(file), edits))
    case SaveWrite(_, _, config) => Holds(config)
  }

  function Serial(file: FileState, history: seq<Write>): FileState {
    if history == [] then file else ApplyWrite(Serial(file, history[..|history| - 1]), history[|history| - 1])
  }

  lemma SerialSnoc(file: FileState, history: seq<Write>, w: Write)
    ensures Serial(file, history + [w]) == ApplyWrite(Serial(file, history), w)
  {
  }

  // ---------- the steps ----------

  function Initial(file: FileState, pids: set<Pid>): State {
    State(file, None, 0, map p | p in pids :: Idle, [])
  }

  function WithProc(s: State, p: Pid, proc: Proc): State {
    s.(procs := s.procs[p := proc])
  }

  /** Drop the lock and the process's local state. */
  function Release(s: State, p: Pid): State {
    WithProc(s, p, Idle).(lock := if s.lock == Some(p) then None else s.lock)
  }

  function Next(s: State, step: Step): State {
    if step.p !in s.procs then s
    else
      var p, proc := step.p, s.procs[step.p];
      match step
      case BeginUpdate(_) => if proc.Idle? then WithProc(s, p, WaitingToUpdate) else s
      case BeginSave(_, config) => if proc.Idle? then WithProc(s, p, WaitingToSave(config)) else s
      case TryLock(_) =>
        if s.lock.Some? then s
        else if proc.WaitingToUpdate? then
          WithProc(s, p, LockedToUpdate).(lock := Some(p), acquisitions := s.acquisitions + 1)
        else if proc.WaitingToSave? then
          WithProc(s, p, LockedToSave(proc.config)).(lock := Some(p), acquisitions := s.acquisitions + 1)
        else s
      case GiveUp(_) => if proc.WaitingToUpdate? || proc.WaitingToSave? then WithProc(s, p, Idle) else s
      case Load(_) =>
        if !proc.LockedToUpdate? then s
        else if s.file.Corrupt? then Release(s, p)
        else WithProc(s, p, Holding(Contents(s.file), []))
      case LoadFails(_) => if proc.LockedToUpdate? then Release(s, p) else s
      case EditGuard(_, e) =>
        if proc.Holding? then WithProc(s, p, Holding(ApplyEdit(proc.config, e), proc.pending + [e])) else s
      case StartWrite(_) =>
        if proc.Holding? then WithProc(s, p, Committing(proc.config, proc.pending))
        else if proc.LockedToSave? then WithProc(s, p, Saving(proc.config))
        else s
      case WriteFails(_) =>
        if proc.Committing? then WithProc(s, p, Holding(proc.config, proc.pending))
        else if proc.Saving? then Release(s, p)
        else s
      case Rename(_) =>
        if proc.Committing? then
          WithProc(s, p, Committed(proc.config)).(
            file := Holds(proc.config), history := s.history + [GuardWrite(s.acquisitions, p, proc.pending)])
        else if proc.Saving? then
          WithProc(s, p, Saved).(
            file := Holds(proc.config), history := s.history + [SaveWrite(s.acquisitions, p, proc.config)])
        else s
      case FinishSync(_, _) =>
        if proc.Committed? then WithProc(s, p, Holding(proc.config, []))
        else if proc.Saved? then Release(s, p)
        else s
      case DropGuard(_) => if proc.Holding? then Release(s, p) else s
      case Crash(_) => Release(s, p)
  }

  function Run(s: State, steps: seq<Step>): State {
    if steps == [] then s else Next(Run(s, steps[..|steps| - 1]), steps[|steps| - 1])
  }

  // ---------- the invariant ----------

  /** A guard's config is the file as it stands plus the guard's own pending edits. */
  ghost predicate GuardCurrent(s: State, proc: Proc) {
    match proc
    case Holding(config, pending) => !s.file.Corrupt? && config == ApplyEdits(Contents(s.file), pending)
    case Committing(config, pending) => !s.file.Corrupt? && config == ApplyEdits(Contents(s.file), pending)
    case Committed(config) => s.file == Holds(config)
    case _ => true
  }

  ghost predicate LockOrder(s: State) {
    && (forall i :: 0 <= i < |s.history| ==> s.history[i].session <= s.acquisitions)
    && (forall i, j :: 0 <= i < j < |s.history| ==> s.history[i].session <= s.history[j].session)
    && (forall i, j :: 0 <= i < j < |s.history| && s.history[i].session == s.history[j].session ==>
          s.history[i].pid == s.history[j].pid)
    && (s.lock.Some? ==> forall i :: 0 <= i < |s.history| && s.history[i].session == s.acquisitions ==>
          s.history[i].pid == s.lock.value)
  }

  ghost predicate Inv(file: FileState, s: State) {
    && (forall p :: p in s.procs && s.procs[p].HasLock() ==> s.lock == Some(p))
    && (s.lock.Some? ==> s.lock.value in s.procs && s.procs[s.lock.value].HasLock())
    && (forall p :: p in s.procs ==> GuardCurrent(s, s.procs[p]))
    && s.file == Serial(file, s.history)
    && LockOrder(s)
  }

  /** A step that changes one process without its lock status, and nothing else. */
  lemma LocalStep(file: FileState, s: State, p: Pid, proc: Proc)
    requires Inv(file, s) && p in s.procs
    requires proc.HasLock() == s.procs[p].HasLock() && GuardCurrent(s, proc)
    ensures Inv(file, WithProc(s, p, proc))
  {
  }

  lemma ReleaseStep(file: FileState, s: State, p: Pid)
    requires Inv(file, s) && p in s.procs
    ensures Inv(file, Release(s, p))
  {
  }

  lemma LockStep(file: FileState, s: State, p: Pid, proc: Proc)
    requires Inv(file, s) && p in s.procs && s.lock.None?
    requires proc.LockedToUpdate? || proc.LockedToSave?
    ensures Inv(file, WithProc(s, p, proc).(lock := Some(p), acquisitions := s.acquisitions + 1))
  {
  }

  /** Steps that do not rename keep the file and the history. */
  lemma QuietStep(file: FileState, s: State, step: Step)
    requires Inv(file, s) && !step.Rename?
    ensures Inv(file, Next(s, step))
  {
    var p, s' := step.p, Next(s, step);
    if p in s.procs && s' != s {
      if step.EditGuard? {
        ApplyEditsSnoc(Contents(s.file), s.procs[p].pending, step.edit);
      }
      if s' == Release(s, p) {
        ReleaseStep(file, s, p);
      } else if step.TryLock? {
        LockStep(file, s, p, s'.procs[p]);
      } else {
        LocalStep(file, s, p, s'.procs[p]);
      }
    }
  }

  lemma RenameStep(file: FileState, s: State, p: Pid)
    requires Inv(file, s)
    ensures Inv(file, Next(s, Rename(p)))
  {
    if p in s.procs && (s.procs[p].Committing? || s.procs[p].Saving?) {
      var proc, s' := s.procs[p], Next(s, Rename(p));
      var w := s'.history[|s.history|];
      assert s'.history == s.history + [w];
      SerialSnoc(file, s.history, w);
      RenameKeepsLockOrder(s, s', w);
    }
  }

  lemma RenameKeepsLockOrder(s: State, s': State, w: Write)
    requires LockOrder(s) && s.lock == Some(w.pid) && w.session == s.acquisitions
    requires s'.history == s.history + [w] && s'.lock == s.lock && s'.acquisitions == s.acquisitions
    ensures LockOrder(s')
  {
  }

  lemma {:induction false} RunKeepsInv(file: FileState, pids: set<Pid>, steps: seq<Step>)
    ensures Inv(file, Run(Initial(file, pids), steps))
  {
    if steps != [] {
      var n := |steps| - 1;
      RunKeepsInv(file, pids, steps[..n]);
      var s := Run(Initial(file, pids), steps[..n]);
      if steps[n].Rename? {
        RenameStep(file, s, steps[n].p);
      } else {
        QuietStep(file, s, steps[n]);
      }
    }
  }

  // ---------- the theorems ----------

  /** In every run the file is the serial application, in lock order, of the writes that
      reached the rename; writes under one acquisition come from one process. */
  lemma ConfigSerializable(file: FileState, pids: set<Pid>, steps: seq<Step>)
    ensures var s := Run(Initial(file, pids), steps);
            && s.file == Serial(file, s.history)
            && (forall i, j :: 0 <= i < j < |s.history| ==> s.history[i].session <= s.history[j].session)
            && (forall i, j :: 0 <= i < j < |s.history| && s.history[i].session == s.history[j].session ==>
                  s.history[i].pid == s.history[j].pid)
            && (forall p, q :: p in s.procs && q in s.procs && s.procs[p].HasLock() && s.procs[q].HasLock() ==> p == q)
  {
    RunKeepsInv(file, pids, steps);
  }

  /** A write that can change field `f`. */
  predicate Writes(w: Write, f: string) {
    w.SaveWrite? || Touches(w.edits, f)
  }

  /** A field keeps the value it had after write `i` until a later write sets it: no guard
      transaction undoes a field it did not edit. */
  lemma {:induction false} FieldSurvives(file: FileState, history: seq<Write>, i: nat, f: string)
    requires i <= |history|
    requires forall j :: i <= j < |history| ==> !Writes(history[j], f)
    ensures Field(Contents(Serial(file, history)), f) == Field(Contents(Serial(file, history[..i])), f)
    decreases |history|
  {
    if i == |history| {
      assert history[..i] == history;
    } else {
      var n := |history| - 1;
      assert history[..n][..i] == history[..i];
      assert forall j :: 0 <= j < n ==> history[..n][j] == history[j];
      FieldSurvives(file, history[..n], i, f);
      EditsByField(Contents(Serial(file, history[..n])), map[], history[n].edits, f);
    }
  }

  /** While a guard is held, every field it has not edited reads as the file's current value:
      it cannot overwrite a committed field without having seen it. */
  lemma GuardSeesCommitted(file: FileState, pids: set<Pid>, steps: seq<Step>, p: Pid, f: string)
    ensures var s := Run(Initial(file, pids), steps);
            p in s.procs && s.procs[p].Holding? && !Touches(s.procs[p].pending, f) ==>
              Field(s.procs[p].config, f) == Field(Contents(s.file), f)
  {
    RunKeepsInv(file, pids, steps);
    var s := Run(Initial(file, pids), steps);
    if p in s.procs && s.procs[p].Holding? {
      EditsByField(Contents(s.file), map[], s.procs[p].pending, f);
    }
  }

  /** Why a read outside the lock must not be paired with a save: saving the edits of an earlier
      read has the effect of a guard update exactly if every unedited field is still as read. */
  lemma StaleSaveIsUpdate(read: Config, current: Config, edits: seq<Edit>)
    ensures ApplyEdits(read, edits) == ApplyEdits(current, edits) <==>
            forall f :: !Touches(edits, f) ==> Field(read, f) == Field(current, f)
  {
    var a, b := ApplyEdits(read, edits), ApplyEdits(current, edits);
    forall f ensures !Touches(edits, f) ==> Field(a, f) == Field(read, f) && Field(b, f) == Field(current, f)
             ensures Touches(edits, f) ==> Field(a, f) == Field(b, f)
    {
      EditsByField(read, current, edits, f);
      EditsByField(current, read, edits, f);
    }
    if forall f :: Field(a, f) == Field(b, f) {
      assert forall f :: f in a <==> Field(a, f).Some?;
      assert forall f :: f in b <==> Field(b, f).Some?;
      assert a.Keys == b.Keys;
      assert forall f :: f in a ==> Field(a, f) == Some(a[f]) && Field(b, f) == Some(b[f]);
      assert a == b;
    }
  }
}
