/** The attribution recovery pipeline (`recover_attribution` of
    `src/authorship/attribution_recovery.rs`): what a whole run guarantees for any evidence
    and any outcome. */
module RecoveryPipeline {
  import opened Basics
  import opened LineRanges
  import opened AuthorshipLogs
  import opened UnknownLines
  import opened Selection
  import opened LogSessions
  import opened CommitSelection
  import opened NewestTimestamps
  import opened RecoveryTrail
  import opened Recovery

  // ---------- the guarantee ----------

  /** How a run ended, what the commit stage chose and near which timestamps, whether a metrics
      database access failed, and the claims of each stage. */
  datatype Outcome = Outcome(
    ok: bool,
    pick: Option<CommitPick>,
    latest: seq<Nanos>,
    unavailable: bool,
    bash: seq<Claim>,
    events: seq<Claim>,
    commit: seq<Claim>)
  {
    function Trail(): seq<Claim> {
      bash + (events + commit)
    }
  }

  /** A line the pipeline may claim: committed, without an author, logically added, unprotected. */
  ghost predicate Candidate(
    atts: seq<FileAttestation>, hunks: Hunks, ctx: Context, ev: Evidence, f: string, l: Line)
  {
    Unknown(atts, hunks, f, l) && Logical(ev, f, l) && !Listed(ctx.protectedLines, f, l)
  }

  /** Every claim is on candidates that were free at the time; a pre-existing line needs Bash evidence. */
  ghost predicate Framed(before: Log, trail: seq<Claim>, hunks: Hunks, ctx: Context, ev: Evidence) {
    && Exclusive(before.attestations, trail)
    && forall i, l: Line :: 0 <= i < |trail| && l in trail[i].lines ==>
         && Candidate(before.attestations, hunks, ctx, ev, trail[i].file, l)
         && (Listed(ctx.preexisting, trail[i].file, l) ==> trail[i].stage == Bash)
  }

  /** The claims are of this stage, each by the stage's choice for its file. */
  ghost predicate ByChoice(trail: seq<Claim>, stage: Stage, ev: Evidence, choice: string -> Option<Claimant>) {
    forall i :: 0 <= i < |trail| ==>
      && trail[i].stage == stage
      && trail[i].traceId == ev.traceOf(stage, trail[i].file)
      && choice(trail[i].file) == Some(trail[i].claimant)
  }

  ghost predicate ExternalByChoice(ev: Evidence, out: Outcome) {
    && ByChoice(out.events, Events, ev, EventChoices(ev))
    && (out.pick.Some? ==> ByChoice(out.commit, Commit, ev, PickChoices(out.pick.value)))
  }

  /** The author a completed run gives to a candidate line: the Bash call's session, else (unless
      the line was there before) the session event's, else the commit's. */
  ghost predicate Expected(
    before: Log, ctx: Context, ev: Evidence, pick: Option<CommitPick>, f: string, h: string, l: Line)
  {
    var bash := BashChoice(ev, ExistingSessions(before), f);
    if bash.Some? then ChosenAuthor(bash, ev.traceOf(Bash, f), h)
    else if Listed(ctx.preexisting, f, l) then false
    else ExternalAuthor(ev, pick, f, h)
  }

  ghost predicate ExternalAuthor(ev: Evidence, pick: Option<CommitPick>, f: string, h: string) {
    if EventChoice(ev, f).Some? then ChosenAuthor(EventChoice(ev, f), ev.traceOf(Events, f), h)
    else pick.Some? && ChosenAuthor(PickChoices(pick.value)(f), ev.traceOf(Commit, f), h)
  }

  ghost predicate Exact(
    before: Log, after: Log, hunks: Hunks, ctx: Context, ev: Evidence, pick: Option<CommitPick>)
  {
    forall f, h, l: Line :: Claims(after.attestations, f, h, l) <==>
      Claims(before.attestations, f, h, l) ||
      (Candidate(before.attestations, hunks, ctx, ev, f, l) && Expected(before, ctx, ev, pick, f, h, l))
  }

  /** The files with a line that the external stages may still claim on the log `now`. */
  ghost function OpenFiles(before: Log, now: Log, raw: Hunks, ctx: Context, ev: Evidence): set<string> {
    set f | f in raw && exists l: Line :: Open(before, now, raw, ctx, ev, f, l)
  }

  ghost predicate Open(before: Log, now: Log, raw: Hunks, ctx: Context, ev: Evidence, f: string, l: Line) {
    && Candidate(before.attestations, raw, ctx, ev, f, l)
    && !Listed(ctx.preexisting, f, l)
    && !Covered(now.attestations, f, l)
  }

  /** The commit stage on `log`, with the open `files`, after the event stage could not read its
      database (`failed`) or could. A pick claims a line, and no pick claims none. A choice was
      made if there is a pick, or if the run completed with open lines: then it is the
      justified one. Otherwise only the event stage can have failed to read. */
  ghost predicate CommitJustified(ev: Evidence, failed: bool, files: set<string>, log: Log, out: Outcome) {
    && (out.pick.Some? <==> out.commit != [])
    && (out.pick.Some? ==> files != {} && ev.workDir.Some? && ev.commitReadable)
    && if out.pick.Some? || (out.ok && files != {})
       then ChoiceJustified(ev, failed, files, log, out.latest, out.pick, out.unavailable)
       else (out.unavailable ==> failed) && (out.ok ==> out.unavailable == failed)
  }

  /** A completed run recorded every metric; a failed one has a cause. */
  ghost predicate EndJustified(ev: Evidence, ok: bool, trail: seq<Claim>) {
    && (ok ==> MetricsRecorded(ev, trail))
    && (!ok ==> || ev.workDir.None? || ev.bashDb.BashQueryFailed? || !ev.commitReadable
                || !MetricsRecorded(ev, trail))
  }

  /** What one whole run of the pipeline guarantees, for any evidence and any outcome. */
  ghost predicate RecoveryRun(
    before: Log, after: Log, human: string, raw: Hunks, ctx: Context, ev: Evidence, out: Outcome)
  {
    var afterBash := Replay(before, out.bash, human);
    var afterEvents := Replay(afterBash, out.events, human);
    && after == Replay(before, out.Trail(), human)
    && Framed(before, out.Trail(), raw, ctx, ev)
    && ByChoice(out.bash, Bash, ev, BashChoices(ev, ExistingSessions(before)))
    && ExternalByChoice(ev, out)
    && (out.ok ==> Exact(before, after, raw, ctx, ev, out.pick))
    && CommitJustified(ev, EventsUnread(ev, OpenFiles(before, afterBash, raw, ctx, ev)),
                       OpenFiles(before, afterEvents, raw, ctx, ev), afterEvents, out)
    && EndJustified(ev, out.ok, out.Trail())
  }

  // ---------- one stage ----------

  /** A completed stage: every unknown line of a file with a choice goes to that choice. */
  ghost predicate StageGave(
    before: Log, after: Log, hunks: Hunks, choice: string -> Option<Claimant>, traceOf: string -> string)
  {
    forall f, h, l: Line :: Claims(after.attestations, f, h, l) <==>
      Claims(before.attestations, f, h, l) ||
      (Unknown(before.attestations, hunks, f, l) && ChosenAuthor(choice(f), traceOf(f), h))
  }

  /** Exactly the unknown lines of files without a choice are left unknown. */
  ghost predicate StageLeft(before: Log, after: Log, hunks: Hunks, choice: string -> Option<Claimant>) {
    forall f, l: Line :: Covered(after.attestations, f, l) <==>
      Covered(before.attestations, f, l) || (Unknown(before.attestations, hunks, f, l) && choice(f).Some?)
  }

  lemma StageGaveLeft(
    before: Log, after: Log, hunks: Hunks, choice: string -> Option<Claimant>, traceOf: string -> string)
    requires StageGave(before, after, hunks, choice, traceOf)
    ensures StageLeft(before, after, hunks, choice)
  {
    var was, now := before.attestations, after.attestations;
    forall f, l: Line
      ensures Covered(now, f, l) <==> Covered(was, f, l) || (Unknown(was, hunks, f, l) && choice(f).Some?)
    {
      if Covered(was, f, l) {
        var h :| Claims(was, f, h, l);
        assert Claims(now, f, h, l);
      }
      if Unknown(was, hunks, f, l) && choice(f).Some? {
        assert Claims(now, f, AuthorId(choice(f).value.sessionId, traceOf(f)), l);
      }
    }
  }

  lemma StageRunEffect(
    before: Log, after: Log, human: string, stage: Stage, hunks: Hunks, ev: Evidence,
    choice: string -> Option<Claimant>, unknown: LinesByFile, trail: seq<Claim>)
    requires StageRun(before, after, human, stage, hunks, ev, choice, true, unknown, trail)
    ensures StageGave(before, after, hunks, choice, Traces(ev, stage))
    ensures StageLeft(before, after, hunks, choice)
  {
    forall f, h, l: Line
      ensures Claims(after.attestations, f, h, l) <==>
              Claims(before.attestations, f, h, l) ||
              (Unknown(before.attestations, hunks, f, l) && ChosenAuthor(choice(f), Traces(ev, stage)(f), h))
    {
      StageEffect(before, trail, human, stage, hunks, unknown, choice, Traces(ev, stage), f, h, l);
    }
    StageGaveLeft(before, after, hunks, choice, Traces(ev, stage));
  }

  ghost predicate Within(trail: seq<Claim>, hunks: Hunks) {
    forall i, l: Line :: 0 <= i < |trail| && l in trail[i].lines ==> InHunks(hunks, trail[i].file, l)
  }

  /** The claims of a stage, completed or not. */
  lemma StageClaims(
    before: Log, after: Log, human: string, stage: Stage, hunks: Hunks, ev: Evidence,
    choice: string -> Option<Claimant>, ok: bool, unknown: LinesByFile, trail: seq<Claim>)
    requires StageRun(before, after, human, stage, hunks, ev, choice, ok, unknown, trail)
    ensures Exclusive(before.attestations, trail) && Within(trail, hunks) && ByChoice(trail, stage, ev, choice)
  {
    assert [] + trail == trail && Replay(before, [], human) == before;
    StageKeepsExclusive(before, [], trail, human, stage, hunks, unknown, choice, Traces(ev, stage));
  }

  // ---------- the two external stages ----------

  /** What the two external stages do to `hunks`, from which pre-existing lines were taken out. */
  ghost predicate ExternalEffect(before: Log, after: Log, hunks: Hunks, ev: Evidence, pick: Option<CommitPick>) {
    forall f, h, l: Line :: Claims(after.attestations, f, h, l) <==>
      Claims(before.attestations, f, h, l) ||
      (Unknown(before.attestations, hunks, f, l) && ExternalAuthor(ev, pick, f, h))
  }

  ghost predicate ExternalRun(before: Log, after: Log, human: string, hunks: Hunks, ev: Evidence, out: Outcome) {
    var middle, trail := Replay(before, out.events, human), out.events + out.commit;
    && after == Replay(before, trail, human)
    && Exclusive(before.attestations, trail) && Within(trail, hunks)
    && ExternalByChoice(ev, out)
    && (out.ok ==> ExternalEffect(before, after, hunks, ev, out.pick))
    && CommitJustified(ev, EventsUnread(ev, UnknownFiles(before.attestations, hunks)),
                       UnknownFiles(middle.attestations, hunks), middle, out)
    && EndJustified(ev, out.ok, trail)
  }

  /** A run without a commit pick: the event stage is all there is. */
  lemma EventsAlone(
    before: Log, middle: Log, human: string, hunks: Hunks, ev: Evidence, unknown: LinesByFile, out: Outcome)
    requires StageRun(before, middle, human, Events, hunks, ev, EventChoices(ev), out.ok, unknown, out.events)
    requires out.pick.None? && out.commit == []
    requires CommitJustified(ev, EventsUnread(ev, UnknownFiles(before.attestations, hunks)),
                             UnknownFiles(middle.attestations, hunks), middle, out)
    requires EndJustified(ev, out.ok, out.events)
    ensures ExternalRun(before, middle, human, hunks, ev, out)
  {
    assert out.events + out.commit == out.events;
    StageClaims(before, middle, human, Events, hunks, ev, EventChoices(ev), out.ok, unknown, out.events);
    if out.ok {
      StageRunEffect(before, middle, human, Events, hunks, ev, EventChoices(ev), unknown, out.events);
    }
  }

  lemma EventsThenCommit(
    before: Log, middle: Log, after: Log, human: string, hunks: Hunks, ev: Evidence,
    eventLines: LinesByFile, unknown: LinesByFile, out: Outcome)
    requires StageRun(before, middle, human, Events, hunks, ev, EventChoices(ev), true, eventLines, out.events)
    requires out.pick.Some?
    requires StageRun(middle, after, human, Commit, hunks, ev, PickChoices(out.pick.value), out.ok, unknown, out.commit)
    requires CommitJustified(ev, EventsUnread(ev, UnknownFiles(before.attestations, hunks)),
                             UnknownFiles(middle.attestations, hunks), middle, out)
    requires EndJustified(ev, out.ok, out.commit)
    ensures ExternalRun(before, after, human, hunks, ev, out)
  {
    ReplayConcat(before, out.events, out.commit, human);
    MetricsConcat(ev, out.events, out.commit);
    ExternalClaims(before, middle, after, human, hunks, ev, eventLines, unknown, out);
    if out.ok {
      StageRunEffect(before, middle, human, Events, hunks, ev, EventChoices(ev), eventLines, out.events);
      StageRunEffect(middle, after, human, Commit, hunks, ev, PickChoices(out.pick.value), unknown, out.commit);
      EffectsCombine(before, middle, after, hunks, ev, out.pick.value);
    }
  }

  lemma ExternalClaims(
    before: Log, middle: Log, after: Log, human: string, hunks: Hunks, ev: Evidence,
    eventLines: LinesByFile, unknown: LinesByFile, out: Outcome)
    requires StageRun(before, middle, human, Events, hunks, ev, EventChoices(ev), true, eventLines, out.events)
    requires out.pick.Some?
    requires StageRun(middle, after, human, Commit, hunks, ev, PickChoices(out.pick.value), out.ok, unknown, out.commit)
    ensures Exclusive(before.attestations, out.events + out.commit)
    ensures Within(out.events + out.commit, hunks)
    ensures ExternalByChoice(ev, out)
  {
    var choice := PickChoices(out.pick.value);
    StageClaims(before, middle, human, Events, hunks, ev, EventChoices(ev), true, eventLines, out.events);
    StageClaims(middle, after, human, Commit, hunks, ev, choice, out.ok, unknown, out.commit);
    ExclusiveConcat(before, out.events, out.commit, human);
    WithinConcat(out.events, out.commit, hunks);
  }

  lemma WithinConcat(a: seq<Claim>, b: seq<Claim>, hunks: Hunks)
    requires Within(a, hunks) && Within(b, hunks)
    ensures Within(a + b, hunks)
  {
  }

  lemma MetricsConcat(ev: Evidence, a: seq<Claim>, b: seq<Claim>)
    ensures MetricsRecorded(ev, a + b) <==> MetricsRecorded(ev, a) && MetricsRecorded(ev, b)
  {
    var all := a + b;
    assert forall i :: 0 <= i < |a| ==> all[i] == a[i];
    assert forall i :: 0 <= i < |b| ==> all[|a| + i] == b[i];
  }

  lemma EffectsCombine(before: Log, middle: Log, after: Log, hunks: Hunks, ev: Evidence, pick: CommitPick)
    requires StageGave(before, middle, hunks, EventChoices(ev), Traces(ev, Events))
    requires StageLeft(before, middle, hunks, EventChoices(ev))
    requires StageGave(middle, after, hunks, PickChoices(pick), Traces(ev, Commit))
    ensures ExternalEffect(before, after, hunks, ev, Some(pick))
  {
  }

  /** The session-event stage and then the commit-metadata stage, after the Bash claims. */
  method RecoverExternal(log: AuthorshipLog, human: string, hunks: Hunks, ev: Evidence, bash: seq<Claim>)
    returns (out: Outcome)
    modifies log
    ensures out.bash == bash
    ensures ExternalRun(old(log.Value()), log.Value(), human, hunks, ev, out)
  {
    ghost var before := log.Value();
    ghost var eventLines;
    var ok, unavailable, events;
    ok, unavailable, eventLines, events := RecoverEvents(log, human, hunks, ev);
    out := Outcome(ok, None, [], unavailable, bash, events, []);
    ghost var middle := log.Value();
    ListedFiles(eventLines, before.attestations, hunks);
    var unknown := UnknownLinesByFile(log.attestations, hunks);
    ListedFiles(unknown, middle.attestations, hunks);
    if !ok || unknown == map[] {
      EventsAlone(before, middle, human, hunks, ev, eventLines, out);
      return;
    }
    var pick, latest, commit;
    ok, pick, latest, unavailable, commit := RecoverCommit(log, human, unknown, ev, unavailable);
    out := Outcome(ok, pick, latest, unavailable, bash, events, commit);
    if pick.Some? {
      EventsThenCommit(before, middle, log.Value(), human, hunks, ev, eventLines, unknown, out);
    } else {
      EventsAlone(before, middle, human, hunks, ev, eventLines, out);
    }
  }

  // ---------- the whole pipeline ----------

  /** The logical filter and the protection, applied to the raw hunks. */
  method CandidateHunks(atts: seq<FileAttestation>, hunks: Hunks, ctx: Context, ev: Evidence) returns (r: Hunks)
    ensures Ordered(r)
    ensures forall f, l: Line :: InHunks(r, f, l) <==> Candidate(atts, hunks, ctx, ev, f, l)
  {
    r := map[];
    if hunks == map[] || ev.logical.None? {
      return;
    }
    var unknown := UnknownLinesByFile(atts, hunks);
    if unknown == map[] {
      assert forall f, l: Line :: !Lists(unknown, f, l);
      return;
    }
    var logical := LogicalHunks(atts, hunks, ev.logical.value);
    r := ExcludeProtected(logical, ctx.protectedLines);
  }

  /** `hunks` holds exactly the candidates, and `narrow` those that were not there before. */
  ghost predicate Narrowed(narrow: Hunks, hunks: Hunks, before: Log, raw: Hunks, ctx: Context, ev: Evidence) {
    && (forall f, l: Line :: InHunks(hunks, f, l) <==> Candidate(before.attestations, raw, ctx, ev, f, l))
    && (forall f, l: Line :: InHunks(narrow, f, l) <==> InHunks(hunks, f, l) && !Listed(ctx.preexisting, f, l))
  }

  lemma OpenFilesAreUnknown(
    narrow: Hunks, hunks: Hunks, before: Log, now: Log, raw: Hunks, ctx: Context, ev: Evidence)
    requires Narrowed(narrow, hunks, before, raw, ctx, ev)
    ensures OpenFiles(before, now, raw, ctx, ev) == UnknownFiles(now.attestations, narrow)
  {
    forall f, l: Line
      ensures Open(before, now, raw, ctx, ev, f, l) <==> Unknown(now.attestations, narrow, f, l)
    {
    }
    forall f ensures f in OpenFiles(before, now, raw, ctx, ev) <==> f in UnknownFiles(now.attestations, narrow) {
      if l: Line :| Open(before, now, raw, ctx, ev, f, l) {
        assert Unknown(now.attestations, narrow, f, l);
      }
      if l: Line :| Unknown(now.attestations, narrow, f, l) {
        assert Open(before, now, raw, ctx, ev, f, l);
      }
    }
  }

  lemma BashFramed(
    before: Log, middle: Log, human: string, raw: Hunks, hunks: Hunks, narrow: Hunks, ctx: Context, ev: Evidence,
    ok: bool, unknown: LinesByFile, bash: seq<Claim>)
    requires Narrowed(narrow, hunks, before, raw, ctx, ev)
    requires StageRun(before, middle, human, Bash, hunks, ev, BashChoices(ev, ExistingSessions(before)), ok,
                      unknown, bash)
    ensures Framed(before, bash, raw, ctx, ev)
    ensures ByChoice(bash, Bash, ev, BashChoices(ev, ExistingSessions(before)))
  {
    StageClaims(before, middle, human, Bash, hunks, ev, BashChoices(ev, ExistingSessions(before)), ok, unknown, bash);
  }

  lemma ExternalFramed(
    before: Log, human: string, raw: Hunks, hunks: Hunks, narrow: Hunks, ctx: Context, ev: Evidence,
    bash: seq<Claim>, external: seq<Claim>)
    requires Narrowed(narrow, hunks, before, raw, ctx, ev)
    requires Framed(before, bash, raw, ctx, ev)
    requires Exclusive(Replay(before, bash, human).attestations, external) && Within(external, narrow)
    ensures Framed(before, bash + external, raw, ctx, ev)
  {
    var trail := bash + external;
    ExclusiveConcat(before, bash, external, human);
    assert forall i :: 0 <= i < |bash| ==> trail[i] == bash[i];
    assert forall i :: |bash| <= i < |trail| ==> trail[i] == external[i - |bash|];
  }

  /** The Bash stage and the external stages together give what is expected. */
  lemma ExactCombines(
    before: Log, middle: Log, after: Log, raw: Hunks, hunks: Hunks, narrow: Hunks, ctx: Context, ev: Evidence,
    pick: Option<CommitPick>)
    requires Narrowed(narrow, hunks, before, raw, ctx, ev)
    requires StageGave(before, middle, hunks, BashChoices(ev, ExistingSessions(before)), Traces(ev, Bash))
    requires StageLeft(before, middle, hunks, BashChoices(ev, ExistingSessions(before)))
    requires ExternalEffect(middle, after, narrow, ev, pick)
    ensures Exact(before, after, raw, ctx, ev, pick)
  {
    forall f, l: Line
      ensures Unknown(middle.attestations, narrow, f, l) <==>
              Candidate(before.attestations, raw, ctx, ev, f, l) && !Listed(ctx.preexisting, f, l) &&
              BashChoice(ev, ExistingSessions(before), f).None?
    {
    }
  }

  /** A run that ends after the Bash stage: it failed, or nothing was left to ask about. */
  lemma RunOfBash(
    before: Log, middle: Log, human: string, raw: Hunks, hunks: Hunks, narrow: Hunks, ctx: Context, ev: Evidence,
    unknown: LinesByFile, out: Outcome)
    requires Narrowed(narrow, hunks, before, raw, ctx, ev)
    requires StageRun(before, middle, human, Bash, hunks, ev, BashChoices(ev, ExistingSessions(before)), out.ok,
                      unknown, out.bash)
    requires out.events == [] && out.commit == [] && out.pick.None? && !out.unavailable
    requires out.ok ==> UnknownFiles(middle.attestations, narrow) == {}
    requires EndJustified(ev, out.ok, out.bash)
    ensures RecoveryRun(before, middle, human, raw, ctx, ev, out)
  {
    BashFramed(before, middle, human, raw, hunks, narrow, ctx, ev, out.ok, unknown, out.bash);
    OpenFilesAreUnknown(narrow, hunks, before, middle, raw, ctx, ev);
    assert out.Trail() == out.bash && Replay(middle, [], human) == middle;
    if out.ok {
      NothingOpen(middle, narrow, ev);
      AllStagesExact(before, middle, middle, human, raw, hunks, narrow, ctx, ev, unknown, out);
    }
  }

  lemma NothingOpen(log: Log, narrow: Hunks, ev: Evidence)
    requires UnknownFiles(log.attestations, narrow) == {}
    ensures ExternalEffect(log, log, narrow, ev, None)
  {
    forall f, l: Line ensures !Unknown(log.attestations, narrow, f, l) {
      assert Unknown(log.attestations, narrow, f, l) ==> f in UnknownFiles(log.attestations, narrow);
    }
  }

  lemma RunOfAllStages(
    before: Log, middle: Log, after: Log, human: string, raw: Hunks, hunks: Hunks, narrow: Hunks, ctx: Context,
    ev: Evidence, unknown: LinesByFile, out: Outcome)
    requires Narrowed(narrow, hunks, before, raw, ctx, ev)
    requires StageRun(before, middle, human, Bash, hunks, ev, BashChoices(ev, ExistingSessions(before)), true,
                      unknown, out.bash)
    requires ExternalRun(middle, after, human, narrow, ev, out)
    ensures RecoveryRun(before, after, human, raw, ctx, ev, out)
  {
    var external := out.events + out.commit;
    ReplayConcat(before, out.bash, external, human);
    BashFramed(before, middle, human, raw, hunks, narrow, ctx, ev, true, unknown, out.bash);
    ExternalFramed(before, human, raw, hunks, narrow, ctx, ev, out.bash, external);
    OpenFilesAreUnknown(narrow, hunks, before, middle, raw, ctx, ev);
    OpenFilesAreUnknown(narrow, hunks, before, Replay(middle, out.events, human), raw, ctx, ev);
    MetricsConcat(ev, out.bash, external);
    if out.ok {
      AllStagesExact(before, middle, after, human, raw, hunks, narrow, ctx, ev, unknown, out);
    }
  }

  lemma AllStagesExact(
    before: Log, middle: Log, after: Log, human: string, raw: Hunks, hunks: Hunks, narrow: Hunks, ctx: Context,
    ev: Evidence, unknown: LinesByFile, out: Outcome)
    requires Narrowed(narrow, hunks, before, raw, ctx, ev)
    requires StageRun(before, middle, human, Bash, hunks, ev, BashChoices(ev, ExistingSessions(before)), true,
                      unknown, out.bash)
    requires ExternalEffect(middle, after, narrow, ev, out.pick)
    ensures Exact(before, after, raw, ctx, ev, out.pick)
  {
    var choice := BashChoices(ev, ExistingSessions(before));
    StageRunEffect(before, middle, human, Bash, hunks, ev, choice, unknown, out.bash);
    ExactCombines(before, middle, after, raw, hunks, narrow, ctx, ev, out.pick);
  }

  /** `recover_attribution`. An error return (`!ok`) may leave a prefix of the claims in the log. */
  method RecoverAttribution(log: AuthorshipLog, human: string, committedHunks: Hunks, ctx: Context, ev: Evidence)
    returns (out: Outcome)
    modifies log
    ensures RecoveryRun(old(log.Value()), log.Value(), human, committedHunks, ctx, ev, out)
  {
    ghost var before := log.Value();
    out := Outcome(true, None, [], false, [], [], []);
    var hunks := CandidateHunks(log.attestations, committedHunks, ctx, ev);
    if hunks == map[] {
      RunWithoutCandidates(before, human, committedHunks, hunks, ctx, ev);
      return;
    }
    ghost var unknown;
    var ok, bash;
    ok, unknown, bash := RecoverBash(log, human, hunks, ev);
    out := Outcome(ok, None, [], false, bash, [], []);
    ghost var middle := log.Value();
    var narrow := ExcludeProtected(hunks, ctx.preexisting);
    var unknownBeforeExternal := UnknownLinesByFile(log.attestations, narrow);
    ListedFiles(unknownBeforeExternal, middle.attestations, narrow);
    if !ok || unknownBeforeExternal == map[] {
      RunOfBash(before, middle, human, committedHunks, hunks, narrow, ctx, ev, unknown, out);
      return;
    }
    out := RecoverExternal(log, human, narrow, ev, bash);
    RunOfAllStages(before, middle, log.Value(), human, committedHunks, hunks, narrow, ctx, ev, unknown, out);
  }

  lemma RunWithoutCandidates(before: Log, human: string, raw: Hunks, hunks: Hunks, ctx: Context, ev: Evidence)
    requires hunks == map[]
    requires forall f, l: Line :: InHunks(hunks, f, l) <==> Candidate(before.attestations, raw, ctx, ev, f, l)
    ensures RecoveryRun(before, before, human, raw, ctx, ev, Outcome(true, None, [], false, [], [], []))
  {
    var out := Outcome(true, None, [], false, [], [], []);
    assert forall f, l: Line :: !InHunks(hunks, f, l);
    assert OpenFiles(before, before, raw, ctx, ev) == {};
    assert out.Trail() == [];
    assert Exact(before, before, raw, ctx, ev, None) by {
      assert forall f, l: Line :: !Candidate(before.attestations, raw, ctx, ev, f, l);
    }
    assert CommitJustified(ev, EventsUnread(ev, {}), {}, before, out);
  }

  // ---------- what the guarantee means ----------

  /** The recovery frame, for every evidence and every outcome: no claim is removed, a covered
      line gains no author, a line gains at most one, and a gained line was committed,
      logically added and unprotected, and came from the Bash stage if it was pre-existing. */
  lemma RecoveryFrame(
    before: Log, after: Log, human: string, raw: Hunks, ctx: Context, ev: Evidence, out: Outcome)
    requires RecoveryRun(before, after, human, raw, ctx, ev, out)
    ensures forall f, h, l: Line :: Claims(before.attestations, f, h, l) ==> Claims(after.attestations, f, h, l)
    ensures forall f, h, l: Line :: Covered(before.attestations, f, l) && Claims(after.attestations, f, h, l) ==>
              Claims(before.attestations, f, h, l)
    ensures forall f, h1, h2, l: Line ::
              !Covered(before.attestations, f, l) ==>
              Claims(after.attestations, f, h1, l) && Claims(after.attestations, f, h2, l) ==>
              h1 == h2
    ensures forall f, h, l: Line :: Claims(after.attestations, f, h, l) && !Claims(before.attestations, f, h, l) ==>
              && InHunks(raw, f, l) && Logical(ev, f, l) && !Listed(ctx.protectedLines, f, l)
              && (Listed(ctx.preexisting, f, l) ==> TrailGives(out.bash, f, h, l))
    ensures SessionsGrow(before.metadata.sessions, after.metadata.sessions)
  {
    ExclusiveReplayFrame(before, out.Trail(), human);
    ReplayGrowsSessions(before, out.Trail(), human);
    forall f, h, l: Line | Claims(after.attestations, f, h, l) && !Claims(before.attestations, f, h, l)
      ensures InHunks(raw, f, l) && Logical(ev, f, l) && !Listed(ctx.protectedLines, f, l)
      ensures Listed(ctx.preexisting, f, l) ==> TrailGives(out.bash, f, h, l)
    {
      ReplayClaims(before, out.Trail(), human, f, h, l);
      GainedLine(before, raw, ctx, ev, out, f, h, l);
    }
  }

  /** Every claim is justified by the evidence itself: a Bash claim stands for a best call of the
      worktree, and an event claim for a best event of the repository. */
  lemma ClaimsAreJustified(
    before: Log, after: Log, human: string, raw: Hunks, ctx: Context, ev: Evidence, out: Outcome)
    requires RecoveryRun(before, after, human, raw, ctx, ev, out)
    ensures forall i :: 0 <= i < |out.bash| ==>
              StandsForCall(ev, ExistingSessions(before), out.bash[i].file, out.bash[i].claimant)
    ensures forall i :: 0 <= i < |out.events| ==> StandsForEvent(ev, out.events[i].file, out.events[i].claimant)
  {
    BashClaimsStand(ev, ExistingSessions(before), out.bash);
    EventClaimsStand(ev, out.events);
  }

  /** And a commit claim is made for the pick, which names a best session of the log as it then
      was, a best event near the newest timestamps of the open files, a best latest event, or a
      new session. */
  lemma CommitClaimsAreJustified(
    before: Log, after: Log, human: string, raw: Hunks, ctx: Context, ev: Evidence, out: Outcome)
    requires RecoveryRun(before, after, human, raw, ctx, ev, out) && out.pick.Some?
    ensures forall i :: 0 <= i < |out.commit| ==>
              && out.commit[i].claimant.sessionId == out.pick.value.sessionId
              && out.commit[i].claimant.agentId == out.pick.value.agentId
    ensures var log := Replay(before, out.bash + out.events, human);
            && NamesWhom(log.metadata.sessions, ev.commit, out.latest, out.pick.value)
            && IsLatest(out.latest, OpenFiles(before, log, raw, ctx, ev), Stamps(ev, Commit))
  {
    CommitClaimsStand(ev, out.pick.value, out.commit);
    PickIsNamed(before, human, raw, ctx, ev, out);
  }

  lemma CommitClaimsStand(ev: Evidence, pick: CommitPick, trail: seq<Claim>)
    requires ByChoice(trail, Commit, ev, PickChoices(pick))
    ensures forall i :: 0 <= i < |trail| ==>
              trail[i].claimant.sessionId == pick.sessionId && trail[i].claimant.agentId == pick.agentId
  {
    forall i | 0 <= i < |trail|
      ensures trail[i].claimant.sessionId == pick.sessionId && trail[i].claimant.agentId == pick.agentId
    {
      assert PickChoices(pick)(trail[i].file) == Some(trail[i].claimant);
    }
  }

  lemma BashClaimsStand(ev: Evidence, existing: set<string>, trail: seq<Claim>)
    requires ByChoice(trail, Bash, ev, BashChoices(ev, existing))
    ensures forall i :: 0 <= i < |trail| ==> StandsForCall(ev, existing, trail[i].file, trail[i].claimant)
  {
    forall i | 0 <= i < |trail| ensures StandsForCall(ev, existing, trail[i].file, trail[i].claimant) {
      BashChoiceMeaning(ev, existing, trail[i].file);
      assert BashChoices(ev, existing)(trail[i].file) == Some(trail[i].claimant);
    }
  }

  lemma EventClaimsStand(ev: Evidence, trail: seq<Claim>)
    requires ByChoice(trail, Events, ev, EventChoices(ev))
    ensures forall i :: 0 <= i < |trail| ==> StandsForEvent(ev, trail[i].file, trail[i].claimant)
  {
    forall i | 0 <= i < |trail| ensures StandsForEvent(ev, trail[i].file, trail[i].claimant) {
      EventChoiceMeaning(ev, trail[i].file);
      assert EventChoices(ev)(trail[i].file) == Some(trail[i].claimant);
    }
  }

  lemma PickIsNamed(before: Log, human: string, raw: Hunks, ctx: Context, ev: Evidence, out: Outcome)
    requires out.pick.Some?
    requires var afterBash := Replay(before, out.bash, human);
             var afterEvents := Replay(afterBash, out.events, human);
             CommitJustified(ev, EventsUnread(ev, OpenFiles(before, afterBash, raw, ctx, ev)),
                             OpenFiles(before, afterEvents, raw, ctx, ev), afterEvents, out)
    ensures var log := Replay(before, out.bash + out.events, human);
            && NamesWhom(log.metadata.sessions, ev.commit, out.latest, out.pick.value)
            && IsLatest(out.latest, OpenFiles(before, log, raw, ctx, ev), Stamps(ev, Commit))
  {
    ReplayConcat(before, out.bash, out.events, human);
    var log := Replay(before, out.bash + out.events, human);
    var failed := EventsUnread(ev, OpenFiles(before, Replay(before, out.bash, human), raw, ctx, ev));
    PickNamesWhom(log.attestations, log.metadata.sessions, ev.commit, out.latest, failed, out.pick.value);
  }

  lemma GainedLine(
    before: Log, raw: Hunks, ctx: Context, ev: Evidence, out: Outcome, f: string, h: string, l: Line)
    requires Framed(before, out.Trail(), raw, ctx, ev) && ExternalByChoice(ev, out)
    requires out.pick.None? ==> out.commit == []
    requires TrailGives(out.Trail(), f, h, l)
    ensures Candidate(before.attestations, raw, ctx, ev, f, l)
    ensures Listed(ctx.preexisting, f, l) ==> TrailGives(out.bash, f, h, l)
  {
    var trail := out.Trail();
    var i :| 0 <= i < |trail| && trail[i].Gives(f, h, l);
    if i < |out.bash| {
      assert out.bash[i].Gives(f, h, l);
    } else {
      LaterStage(ev, out, i);
    }
  }

  lemma LaterStage(ev: Evidence, out: Outcome, i: nat)
    requires ExternalByChoice(ev, out) && (out.pick.None? ==> out.commit == [])
    requires |out.bash| <= i < |out.Trail()|
    ensures out.Trail()[i].stage != Bash
  {
    var k := i - |out.bash|;
    assert out.Trail()[i] == if k < |out.events| then out.events[k] else out.commit[k - |out.events|];
  }

  /** If a completed run picked a commit session, every committed line that is logically added
      and neither protected nor pre-existing ends up covered. */
  lemma CommitPickLeavesNothingUnknown(
    before: Log, after: Log, human: string, raw: Hunks, ctx: Context, ev: Evidence, out: Outcome, f: string, l: Line)
    requires RecoveryRun(before, after, human, raw, ctx, ev, out) && out.ok && out.pick.Some?
    requires InHunks(raw, f, l) && Logical(ev, f, l)
    requires !Listed(ctx.protectedLines, f, l) && !Listed(ctx.preexisting, f, l)
    ensures Covered(after.attestations, f, l)
  {
    if Covered(before.attestations, f, l) {
      var h :| Claims(before.attestations, f, h, l);
      assert Claims(after.attestations, f, h, l);
    } else {
      var bashPick, event := BashChoice(ev, ExistingSessions(before), f), EventChoice(ev, f);
      var h := if bashPick.Some? then AuthorId(bashPick.value.sessionId, ev.traceOf(Bash, f))
               else if event.Some? then AuthorId(event.value.sessionId, ev.traceOf(Events, f))
               else AuthorId(out.pick.value.sessionId, ev.traceOf(Commit, f));
      assert Candidate(before.attestations, raw, ctx, ev, f, l);
      assert Expected(before, ctx, ev, out.pick, f, h, l);
      assert Claims(after.attestations, f, h, l);
    }
  }

  /** Recovery fails closed. In a run where a metrics database access failed, no session is
      synthesized; and if nothing matching was found in what could be read, no commit pick is
      made at all and the commit stage leaves the log untouched. */
  lemma FailsClosed(
    before: Log, after: Log, human: string, raw: Hunks, ctx: Context, ev: Evidence, out: Outcome)
    requires RecoveryRun(before, after, human, raw, ctx, ev, out)
    ensures out.unavailable && out.pick.Some? ==> !out.pick.value.tier.SynthesizedSession?
    ensures var log := Replay(before, out.bash + out.events, human);
            && out.unavailable
            && NoExistingSession(log.metadata.sessions, ev.commit)
            && NothingNearest(ev.commit, out.latest)
            && (forall d: nat :: !LatestFoundAt(ev.commit.latestDb, ev.commit.detections, ev.commit.repoUrl, d))
            ==> out.pick.None? && after == log
    ensures ev.commit.detections == [] ==> out.pick.None? && out.commit == []
  {
    ReplayConcat(before, out.bash, out.events, human);
    var log := Replay(before, out.bash + out.events, human);
    var failed := EventsUnread(ev, OpenFiles(before, Replay(before, out.bash, human), raw, ctx, ev));
    if out.pick.Some? {
      TierMeaning(log.attestations, log.metadata.sessions, ev.commit, out.latest, failed, out.pick);
      if AbsenceEstablished(log.metadata.sessions, ev.commit, out.latest) {
        AbsenceMeaning(log.metadata.sessions, ev.commit, out.latest);
      }
    } else {
      assert out.Trail() == out.bash + out.events;
    }
  }

  /** The commit choice of completed runs that agree up to the event stage is the same: the
      evidence determines it. */
  lemma CommitChoiceDetermined(
    before: Log, after: Log, after2: Log, human: string, raw: Hunks, ctx: Context, ev: Evidence,
    out: Outcome, out2: Outcome)
    requires RecoveryRun(before, after, human, raw, ctx, ev, out) && out.ok
    requires RecoveryRun(before, after2, human, raw, ctx, ev, out2) && out2.ok
    requires out.bash == out2.bash && out.events == out2.events
    ensures out.pick == out2.pick && out.unavailable == out2.unavailable
  {
    var afterBash := Replay(before, out.bash, human);
    var log := Replay(afterBash, out.events, human);
    var failed := EventsUnread(ev, OpenFiles(before, afterBash, raw, ctx, ev));
    var files := OpenFiles(before, log, raw, ctx, ev);
    if files != {} {
      if ev.commit.detections != [] {
        LatestUnique(out.latest, out2.latest, files, Stamps(ev, Commit));
      }
      assert AccessFailed(log.metadata.sessions, ev.commit, out.latest) <==>
             AccessFailed(log.metadata.sessions, ev.commit, out2.latest);
      JustifiedPickUnique(
        log.attestations, log.metadata.sessions, ev.commit, out.latest, failed, out.pick, out2.pick);
    }
  }

  /** A synthesized session appears only when absence was established: on the log at that moment
      no session matches a detected agent, the nearest and the latest lookup were read and held
      nothing compatible for any detection, and the event database was read, or never asked
      because no file with an open line had a timestamp. It then claims a line. */
  lemma SynthesizedOnlyIfAbsent(
    before: Log, after: Log, human: string, raw: Hunks, ctx: Context, ev: Evidence, out: Outcome)
    requires RecoveryRun(before, after, human, raw, ctx, ev, out)
    requires out.pick.Some? && out.pick.value.tier.SynthesizedSession?
    ensures !out.unavailable && out.commit != []
    ensures var sessions := Replay(before, out.bash + out.events, human).metadata.sessions;
            forall d: nat, s :: d < |ev.commit.detections| && s in sessions ==>
              !MatchesTool(ev.commit.detections[d], sessions[s].agentId.tool)
    ensures out.latest == [] ||
            (ev.commit.nearestDb.Rows? &&
             forall e :: e in ev.commit.nearestDb.rows ==>
               !NearestEvidence(e, ev.commit.detections, out.latest, ev.commit.repoUrl))
    ensures ev.commit.latestDb.Opened? &&
            forall d :: 0 <= d < |ev.commit.detections| ==>
              LatestAbsent(ev.commit.latestDb.query(ev.commit.detections[d].tools), ev.commit.repoUrl)
    ensures ev.eventDb.Rows? ||
            forall f, l: Line :: Open(before, Replay(before, out.bash, human), raw, ctx, ev, f, l) ==>
              ev.timestamps(Events, f) == []
  {
    ReplayConcat(before, out.bash, out.events, human);
    var afterBash := Replay(before, out.bash, human);
    var sessions := Replay(afterBash, out.events, human).metadata.sessions;
    var files := OpenFiles(before, afterBash, raw, ctx, ev);
    assert AbsenceEstablished(sessions, ev.commit, out.latest) && !EventsUnread(ev, files);
    AbsenceMeaning(sessions, ev.commit, out.latest);
    forall f, l: Line | Open(before, afterBash, raw, ctx, ev, f, l) ensures f in files {
    }
  }

  /** Every author id a run adds has a session record and resolves to the tool and id of that
      session (of the log before the run, or else of the session's first claimant) with the
      model its own claimant was seen with, given fresh trace ids and a session id that splits
      back. */
  lemma RecoveredAuthorsResolve(
    before: Log, after: Log, human: string, raw: Hunks, ctx: Context, ev: Evidence, out: Outcome, i: nat)
    requires RecoveryRun(before, after, human, raw, ctx, ev, out)
    requires FreshTraces(before.metadata.sessions, out.Trail())
    requires i < |out.Trail()| && Splittable(out.Trail()[i].claimant.sessionId)
    ensures var c, sessions := out.Trail()[i], before.metadata.sessions;
            var k, model := c.claimant.sessionId, c.claimant.agentId.model;
            var id := ResolveSession(after.metadata.sessions, c.Author());
            if k in sessions then id == Some(AgentId(sessions[k].agentId.tool, sessions[k].agentId.id, model))
            else exists j: nat :: FirstClaim(out.Trail(), k, j) &&
                             var first := out.Trail()[j].claimant.agentId;
                             id == Some(AgentId(first.tool, first.id, model))
  {
    RecoveredAuthorResolves(before, out.Trail(), human, i);
  }
}
