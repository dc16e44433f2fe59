/** The parts of attribution recovery (`src/authorship/attribution_recovery.rs`): the logical
    filter, and the stages for Bash evidence, session events and commit metadata.

    Everything read from outside (git, databases, file metadata, generated ids, whether a
    metric could be recorded) is one `Evidence` value, so each result holds for all of it. */
module Recovery {
  import opened Basics
  import opened LineRanges
  import opened AuthorshipLogs
  import opened ConflictResolution
  import opened UnknownLines
  import opened Selection
  import opened SelectionMeaning
  import opened CommitSelection
  import opened NewestTimestamps
  import opened RecoveryTrail

  // ---------- evidence ----------

  /** What the two contents of a file say about its candidate lines. */
  datatype LogicalEvidence =
    | Unreadable               // missing, binary or lossy content: no evidence
    | NoCarriageReturns        // every candidate stands
    | Added(lines: set<Line>)  // only lines the normalised diff adds

  datatype BashDb = BashUnavailable | BashQueryFailed | BashRows(rows: seq<BashCall>)

  datatype Evidence = Evidence(
    logical: Option<string -> LogicalEvidence>,     // None: could not be computed
    workDir: Option<string>,                        // None: no work tree
    timestamps: (Stage, string) -> seq<Nanos>,      // read anew in every stage
    sessionIdOf: (string, string) -> string,
    enriched: BashCall -> AgentId,
    bashDb: BashDb,
    eventDb: Db<seq<SessionEvent>>,
    eventRepoUrl: Option<string>,
    commitReadable: bool,
    commit: CommitEvidence,
    traceOf: (Stage, string) -> string,
    metricRecorded: (Stage, string) -> bool)

  datatype Context = Context(protectedLines: Option<LinesByFile>, preexisting: Option<LinesByFile>)

  ghost predicate Permits(e: LogicalEvidence, l: Line) {
    e.NoCarriageReturns? || (e.Added? && l in e.lines)
  }

  ghost predicate Logical(ev: Evidence, f: string, l: Line) {
    ev.logical.Some? && Permits(ev.logical.value(f), l)
  }

  ghost predicate Listed(lines: Option<LinesByFile>, f: string, l: Line) {
    lines.Some? && Lists(lines.value, f, l)
  }

  // ---------- narrowing the hunks ----------

  /** Every file's ranges expand to a strictly increasing list. */
  ghost predicate Ordered(hunks: Hunks) {
    forall f :: f in hunks ==> Increasing(ExpandAll(hunks[f]))
  }

  function FilterLines(lines: seq<Line>, keep: Line -> bool): seq<Line> {
    if lines == [] then []
    else
      var front := FilterLines(lines[..|lines| - 1], keep);
      if keep(lines[|lines| - 1]) then front + [lines[|lines| - 1]] else front
  }

  lemma {:induction false} FilterLinesMeaning(lines: seq<Line>, keep: Line -> bool)
    ensures forall l: Line :: l in FilterLines(lines, keep) <==> l in lines && keep(l)
    ensures Increasing(lines) ==> Increasing(FilterLines(lines, keep))
  {
    if lines != [] {
      var n := |lines| - 1;
      FilterLinesMeaning(lines[..n], keep);
      assert lines == lines[..n] + [lines[n]];
      assert Increasing(lines) ==> forall i :: 0 <= i < n ==> lines[..n][i] < lines[n];
      var front := FilterLines(lines[..n], keep);
      assert forall i :: 0 <= i < |front| ==> front[i] in front;
    }
  }

  /** Compressing an increasing list keeps it as the expansion. */
  lemma CompressOrdered(lines: seq<Line>)
    requires Increasing(lines)
    ensures ExpandAll(Compress(lines)) == lines
    ensures forall l: Line :: InRanges(Compress(lines), l) <==> l in lines
  {
    IncreasingIsNonDecreasing(lines);
    SortedNeverWraps(lines);
    CompressRoundTrip(lines);
    forall l: Line ensures InRanges(Compress(lines), l) <==> l in lines {
      CompressMeaning(lines, l);
    }
  }

  /** The candidates of one file that its contents support. */
  method LogicalCandidates(e: LogicalEvidence, lines: seq<Line>) returns (ranges: seq<LineRange>)
    requires Increasing(lines)
    ensures forall l: Line :: InRanges(ranges, l) <==> l in lines && Permits(e, l)
    ensures Increasing(ExpandAll(ranges))
  {
    match e
    case Unreadable =>
      ranges := [];
    case NoCarriageReturns =>
      ranges := CompressLines(lines);
      CompressOrdered(lines);
    case Added(added) =>
      var keep := (l: Line) => l in added;
      var kept := SortDedup(FilterLines(lines, keep));
      FilterLinesMeaning(lines, keep);
      SortDedupSorts(FilterLines(lines, keep));
      CompressOrdered(kept);
      ranges := CompressLines(kept);
  }

  method LogicalHunks(atts: seq<FileAttestation>, hunks: Hunks, perFile: string -> LogicalEvidence) returns (r: Hunks)
    ensures Ordered(r)
    ensures forall f, l: Line :: InHunks(r, f, l) <==> Unknown(atts, hunks, f, l) && Permits(perFile(f), l)
  {
    var unknown := UnknownLinesByFile(atts, hunks);
    r := map[];
    var todo := unknown.Keys;
    while todo != {}
      invariant todo <= unknown.Keys
      invariant Ordered(r)
      invariant forall f, l: Line :: InHunks(r, f, l) <==> f !in todo && Lists(unknown, f, l) && Permits(perFile(f), l)
      decreases todo
    {
      var f :| f in todo;
      var ranges := LogicalCandidates(perFile(f), unknown[f]);
      ghost var before := r;
      if ranges != [] {
        r := r[f := ranges];
      }
      todo := todo - {f};
      assert ranges == [] ==> forall l: Line :: !InRanges(ranges, l);
      assert forall g, l: Line :: g != f ==> (InHunks(r, g, l) <==> InHunks(before, g, l));
    }
  }

  function RemainingLines(ranges: seq<LineRange>, protectedLines: seq<Line>): seq<Line> {
    FilterLines(ExpandAll(ranges), (l: Line) => l !in protectedLines)
  }

  /** No file's remaining lines hold the pair on which unsorted compression goes wrong. */
  ghost predicate Unwrapped(hunks: Hunks, protectedLines: Option<LinesByFile>) {
    protectedLines.Some? ==>
      forall f :: f in hunks && f in protectedLines.value ==>
        !WrapsAround(RemainingLines(hunks[f], protectedLines.value[f]))
  }

  method RemainingRanges(ranges: seq<LineRange>, protectedLines: seq<Line>) returns (r: seq<LineRange>)
    ensures !WrapsAround(RemainingLines(ranges, protectedLines)) ==>
              forall l: Line :: InRanges(r, l) <==> InRanges(ranges, l) && l !in protectedLines
    ensures Increasing(ExpandAll(ranges)) ==> Increasing(ExpandAll(r))
  {
    var lines := RemainingLines(ranges, protectedLines);
    r := CompressLines(lines);
    FilterLinesMeaning(ExpandAll(ranges), (l: Line) => l !in protectedLines);
    CompressRoundTrip(lines);
    if Increasing(ExpandAll(ranges)) {
      CompressOrdered(lines);
    }
    if !WrapsAround(lines) {
      forall l: Line ensures InRanges(r, l) <==> InRanges(ranges, l) && l !in protectedLines {
        ExpandAllMeaning(ranges, l);
        ExpandAllMeaning(r, l);
      }
    }
  }

  lemma OrderedIsUnwrapped(hunks: Hunks, protectedLines: Option<LinesByFile>)
    requires Ordered(hunks)
    ensures Unwrapped(hunks, protectedLines)
  {
    if protectedLines.Some? {
      forall f | f in hunks && f in protectedLines.value
        ensures !WrapsAround(RemainingLines(hunks[f], protectedLines.value[f]))
      {
        var lines := protectedLines.value[f];
        FilterLinesMeaning(ExpandAll(hunks[f]), (l: Line) => l !in lines);
        IncreasingIsNonDecreasing(RemainingLines(hunks[f], lines));
        SortedNeverWraps(RemainingLines(hunks[f], lines));
      }
    }
  }

  /** `exclude_protected_lines` compresses without sorting, so it is exact unless the remaining
      lines wrap around, which ordered hunks never do. */
  method ExcludeProtected(hunks: Hunks, protectedLines: Option<LinesByFile>) returns (r: Hunks)
    ensures Unwrapped(hunks, protectedLines) ==>
              forall f, l: Line :: InHunks(r, f, l) <==> InHunks(hunks, f, l) && !Listed(protectedLines, f, l)
    ensures Ordered(hunks) ==> Ordered(r) && Unwrapped(hunks, protectedLines)
  {
    r := hunks;
    if Ordered(hunks) {
      OrderedIsUnwrapped(hunks, protectedLines);
    }
    if protectedLines.None? {
      return;
    }
    var todo := hunks.Keys;
    while todo != {}
      invariant todo <= hunks.Keys && r.Keys <= hunks.Keys
      invariant forall f :: f in todo ==> f in r && r[f] == hunks[f]
      invariant Ordered(hunks) ==> Ordered(r)
      invariant Unwrapped(hunks, protectedLines) ==> forall f, l: Line :: f !in todo ==>
                  (InHunks(r, f, l) <==> InHunks(hunks, f, l) && !Listed(protectedLines, f, l))
      decreases todo
    {
      var f :| f in todo;
      todo := todo - {f};
      if f in protectedLines.value {
        ghost var before := r;
        var remaining := RemainingRanges(hunks[f], protectedLines.value[f]);
        if remaining != [] {
          r := r[f := remaining];
        } else {
          r := r - {f};
          assert forall l: Line :: !InRanges(remaining, l);
        }
        assert forall g, l: Line :: g != f ==> (InHunks(r, g, l) <==> InHunks(before, g, l));
      }
    }
  }

  // ---------- the choices of the stages ----------

  function Stamps(ev: Evidence, stage: Stage): string -> seq<Nanos> {
    f => ev.timestamps(stage, f)
  }

  function Traces(ev: Evidence, stage: Stage): string -> string {
    f => ev.traceOf(stage, f)
  }

  function BashContextOf(ev: Evidence, existing: set<string>, f: string): BashContext
    requires ev.workDir.Some?
  {
    BashContext(existing, ev.workDir.value, ev.sessionIdOf, ev.timestamps(Bash, f))
  }

  /** The Bash call that explains the unknown lines of `f`, if any. */
  function BashChoice(ev: Evidence, existing: set<string>, f: string): Option<Claimant> {
    if ev.workDir.None? || !ev.bashDb.BashRows? || ev.timestamps(Bash, f) == [] then None
    else
      match SelectBestBash(ev.bashDb.rows, BashContextOf(ev, existing, f))
      case None => None
      case Some(s) =>
        if s.distance > BASH_RECOVERY_WINDOW_NS then None
        else
          var agentId := ev.enriched(s.call);
          Some(Claimant(ev.sessionIdOf(agentId.id, agentId.tool), agentId))
  }

  function EventChoice(ev: Evidence, f: string): Option<Claimant> {
    if !ev.eventDb.Rows? || ev.eventRepoUrl.None? || ev.timestamps(Events, f) == [] then None
    else
      match SelectBestEvent(ev.eventDb.rows, ev.timestamps(Events, f), ev.eventRepoUrl.value)
      case None => None
      case Some(s) =>
        if s.distance > SESSION_EVENT_RECOVERY_WINDOW_NS then None
        else Some(Claimant(s.event.sessionId, EventAgent(s.event)))
  }

  function BashChoices(ev: Evidence, existing: set<string>): string -> Option<Claimant> {
    f => BashChoice(ev, existing, f)
  }

  function EventChoices(ev: Evidence): string -> Option<Claimant> {
    f => EventChoice(ev, f)
  }

  /** The commit stage gives every file to its one pick. */
  function PickChoices(pick: CommitPick): string -> Option<Claimant> {
    f => Some(Claimant(pick.sessionId, pick.agentId))
  }

  /** The claimant stands for a best call of the worktree for the file: the agent its enrichment
      names, under the session id generated for that agent. */
  ghost predicate StandsForCall(ev: Evidence, existing: set<string>, f: string, claimant: Claimant) {
    && ev.workDir.Some? && ev.bashDb.BashRows?
    && var ctx := BashContext(existing, ev.workDir.value, ev.sessionIdOf, ev.timestamps(Bash, f));
       exists call :: IsBestBash(call, ev.bashDb.rows, ctx) && claimant.agentId == ev.enriched(call) &&
                      claimant.sessionId == ev.sessionIdOf(ev.enriched(call).id, ev.enriched(call).tool)
  }

  /** A Bash choice exists exactly if some recorded call has evidence for the file, and then stands
      for a best one. */
  lemma BashChoiceMeaning(ev: Evidence, existing: set<string>, f: string)
    ensures ev.workDir.Some? && ev.bashDb.BashRows? ==>
              var ctx := BashContext(existing, ev.workDir.value, ev.sessionIdOf, ev.timestamps(Bash, f));
              (BashChoice(ev, existing, f).Some? <==> exists c :: c in ev.bashDb.rows && BashEvidence(c, ctx))
    ensures BashChoice(ev, existing, f).Some? ==> StandsForCall(ev, existing, f, BashChoice(ev, existing, f).value)
  {
    if ev.workDir.Some? && ev.bashDb.BashRows? {
      var ctx := BashContext(existing, ev.workDir.value, ev.sessionIdOf, ev.timestamps(Bash, f));
      BashPickMeaning(ev.bashDb.rows, ctx);
      assert ctx.timestamps == [] ==> forall c :: !BashEvidence(c, ctx);
      var pick := SelectBestBash(ev.bashDb.rows, ctx);
      assert pick.Some? ==> IsBestBash(pick.value.call, ev.bashDb.rows, ctx);
    }
  }

  /** The claimant stands for a best event of the repository for the file. */
  ghost predicate StandsForEvent(ev: Evidence, f: string, claimant: Claimant) {
    && ev.eventDb.Rows? && ev.eventRepoUrl.Some?
    && exists e :: IsBestEvent(e, ev.eventDb.rows, ev.timestamps(Events, f), ev.eventRepoUrl.value) &&
                   claimant.sessionId == e.sessionId && DescribesEvent(claimant.agentId, e)
  }

  lemma EventChoiceMeaning(ev: Evidence, f: string)
    ensures ev.eventDb.Rows? && ev.eventRepoUrl.Some? ==>
              (EventChoice(ev, f).Some? <==>
               exists e :: e in ev.eventDb.rows && EventEvidence(e, ev.timestamps(Events, f), ev.eventRepoUrl.value))
    ensures EventChoice(ev, f).Some? ==> StandsForEvent(ev, f, EventChoice(ev, f).value)
  {
    if ev.eventDb.Rows? && ev.eventRepoUrl.Some? {
      var timestamps, url := ev.timestamps(Events, f), ev.eventRepoUrl.value;
      EventPickMeaning(ev.eventDb.rows, timestamps, url);
      var pick := SelectBestEvent(ev.eventDb.rows, timestamps, url);
      assert pick.Some? ==> IsBestEvent(pick.value.event, ev.eventDb.rows, timestamps, url);
    }
  }

  // ---------- the stages ----------

  ghost predicate MetricsRecorded(ev: Evidence, trail: seq<Claim>) {
    forall i :: 0 <= i < |trail| ==> ev.metricRecorded(trail[i].stage, trail[i].file)
  }

  /** The loop over the files of a stage: claim the unknown lines of each file that has a
      choice, and stop early if a claim's metric cannot be recorded. */
  method ClaimFiles(
    log: AuthorshipLog, human: string, stage: Stage, unknown: LinesByFile,
    choice: string -> Option<Claimant>, ev: Evidence)
    returns (ok: bool, trail: seq<Claim>)
    modifies log
    ensures log.Value() == Replay(old(log.Value()), trail, human)
    ensures StageTrail(trail, stage, unknown, choice, Traces(ev, stage))
    ensures ok ==> Complete(trail, unknown, choice)
    ensures ok <==> MetricsRecorded(ev, trail)
  {
    ghost var before := log.Value();
    trail := [];
    var todo := unknown.Keys;
    while todo != {}
      invariant todo <= unknown.Keys
      invariant log.Value() == Replay(before, trail, human)
      invariant StageTrail(trail, stage, unknown, choice, Traces(ev, stage))
      invariant forall f :: f in unknown ==> (Claimed(trail, f) <==> f !in todo && choice(f).Some?)
      invariant MetricsRecorded(ev, trail)
      decreases todo
    {
      var f :| f in todo;
      todo := todo - {f};
      if choice(f).Some? {
        var c := Claim(stage, f, choice(f).value, ev.traceOf(stage, f), unknown[f]);
        StageTrailSnoc(trail, c, stage, unknown, choice, Traces(ev, stage));
        ghost var front := trail;
        trail := ExtendTrail(log, before, trail, c, human);
        assert trail[|front|] == c;
        if !ev.metricRecorded(stage, f) {
          return false, trail;
        }
      }
    }
    ok := true;
  }

  /** What a stage leaves behind: the replay of claims on the unknown lines of distinct files, by
      the stage's choices; of all files with a choice, and all recorded, unless it failed. */
  ghost predicate StageRun(
    before: Log, after: Log, human: string, stage: Stage, hunks: Hunks, ev: Evidence,
    choice: string -> Option<Claimant>, ok: bool, unknown: LinesByFile, trail: seq<Claim>)
  {
    && after == Replay(before, trail, human)
    && ListsUnknown(unknown, before.attestations, hunks)
    && StageTrail(trail, stage, unknown, choice, Traces(ev, stage))
    && (ok ==> Complete(trail, unknown, choice) && MetricsRecorded(ev, trail))
  }

  predicate SomeTimestamp(files: set<string>, timestamps: string -> seq<Nanos>) {
    exists f :: f in files && timestamps(f) != []
  }

  /** The session keys of the log: the Bash stage prefers calls of these sessions. */
  function ExistingSessions(log: Log): set<string> {
    OfKind(UsedKeys(log.attestations), SessionKey)
  }

  lemma ExistingSessionsMeaning(log: Log, k: string)
    ensures k in ExistingSessions(log) <==> KeyUsed(log.attestations, k) && "s_" <= k
  {
    UsedKeysMeaning(log.attestations, k);
    PrefixesDiffer(k);
  }

  method RecoverBash(log: AuthorshipLog, human: string, hunks: Hunks, ev: Evidence)
    returns (ok: bool, ghost unknown: LinesByFile, trail: seq<Claim>)
    modifies log
    ensures StageRun(old(log.Value()), log.Value(), human, Bash, hunks, ev,
                     BashChoices(ev, ExistingSessions(old(log.Value()))), ok, unknown, trail)
    ensures ok <==> && ev.workDir.Some?
                    && !(SomeTimestamp(unknown.Keys, Stamps(ev, Bash)) && ev.bashDb.BashQueryFailed?)
                    && MetricsRecorded(ev, trail)
  {
    trail := [];
    var lines := UnknownLinesByFile(log.attestations, hunks);
    unknown := lines;
    if ev.workDir.None? {
      return false, unknown, trail;
    }
    if lines == map[] || !SomeTimestamp(lines.Keys, Stamps(ev, Bash)) {
      return true, unknown, trail;
    }
    match ev.bashDb
    case BashUnavailable => ok := true;
    case BashQueryFailed => ok := false;
    case BashRows(rows) =>
      if rows == [] {
        assert forall f :: BashChoice(ev, ExistingSessions(log.Value()), f).None?;
        return true, unknown, trail;
      }
      var keys := CollectKeys(log.attestations);
      ok, trail := ClaimFiles(log, human, Bash, lines, BashChoices(ev, keys.sessions), ev);
  }

  /** The event database was asked, because a file with unknown lines has a timestamp, and could
      not be opened, locked in time or queried. */
  ghost predicate EventsUnread(ev: Evidence, files: set<string>) {
    ev.workDir.Some? && SomeTimestamp(files, Stamps(ev, Events)) && !ev.eventDb.Rows?
  }

  method RecoverEvents(log: AuthorshipLog, human: string, hunks: Hunks, ev: Evidence)
    returns (ok: bool, unavailable: bool, ghost unknown: LinesByFile, trail: seq<Claim>)
    modifies log
    ensures StageRun(old(log.Value()), log.Value(), human, Events, hunks, ev, EventChoices(ev), ok, unknown, trail)
    ensures unavailable <==> EventsUnread(ev, unknown.Keys)
    ensures ok <==> ev.workDir.Some? && MetricsRecorded(ev, trail)
  {
    trail, unavailable := [], false;
    var lines := UnknownLinesByFile(log.attestations, hunks);
    unknown := lines;
    if ev.workDir.None? {
      return false, false, unknown, trail;
    }
    if lines == map[] || !SomeTimestamp(lines.Keys, Stamps(ev, Events)) {
      return true, false, unknown, trail;
    }
    match ev.eventDb
    case OpenFailed => ok, unavailable := true, true;
    case LockTimedOut => ok, unavailable := true, true;
    case QueryFailed => ok, unavailable := true, true;
    case Rows(rows) =>
      if rows == [] || ev.eventRepoUrl.None? {
        assert forall f :: EventChoice(ev, f).None?;
        return true, false, unknown, trail;
      }
      ok, trail := ClaimFiles(log, human, Events, lines, EventChoices(ev), ev);
  }

  /** The commit stage's choice on `log`, near the newest timestamps of `files`, after an access
      had `failed` or not: it is the justified one, and it says what could not be read. */
  ghost predicate ChoiceJustified(
    ev: Evidence, failed: bool, files: set<string>, log: Log, latest: seq<Nanos>, pick: Option<CommitPick>,
    unavailable: bool)
  {
    && (ev.commit.detections != [] ==> IsLatest(latest, files, Stamps(ev, Commit)))
    && PickJustified(log.attestations, log.metadata.sessions, ev.commit, latest, failed, pick)
    && (unavailable <==> failed || AccessFailed(log.metadata.sessions, ev.commit, latest))
  }

  method RecoverCommit(log: AuthorshipLog, human: string, unknown: LinesByFile, ev: Evidence, unavailable: bool)
    returns (ok: bool, pick: Option<CommitPick>, latest: seq<Nanos>, unavailable': bool, trail: seq<Claim>)
    modifies log
    ensures log.Value() == Replay(old(log.Value()), trail, human)
    ensures pick.Some? <==> trail != []
    ensures pick.Some? ==> ev.workDir.Some? && ev.commitReadable
    ensures pick.Some? ==>
              && StageTrail(trail, Commit, unknown, PickChoices(pick.value), Traces(ev, Commit))
              && (ok ==> Complete(trail, unknown, PickChoices(pick.value)))
    ensures if unknown != map[] && (ok || pick.Some?)
            then ChoiceJustified(ev, unavailable, unknown.Keys, old(log.Value()), latest, pick, unavailable')
            else pick.None? && unavailable' == unavailable
    ensures ok <==> || unknown == map[]
                    || (ev.commitReadable && (ev.commit.detections == [] || ev.workDir.Some?) &&
                        MetricsRecorded(ev, trail))
  {
    ok, pick, latest, unavailable', trail := true, None, [], unavailable, [];
    if unknown == map[] {
      return;
    }
    if !ev.commitReadable {
      ok := false;
      return;
    }
    if ev.commit.detections == [] {
      return;
    }
    if ev.workDir.None? {
      ok := false;
      return;
    }
    latest := LatestTimestamps(unknown.Keys, Stamps(ev, Commit));
    pick, unavailable' :=
      SelectCommitSession(log.attestations, log.metadata.sessions, ev.commit, latest, unavailable);
    if pick.None? {
      return;
    }
    ok, trail := ClaimFiles(log, human, Commit, unknown, PickChoices(pick.value), ev);
    assert ok ==> forall f :: f in unknown ==> Claimed(trail, f);
  }
}
