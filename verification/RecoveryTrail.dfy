/** The effect of attribution recovery on a log, as the replay of its claims
    (`add_attestation`, `insert_session_record` and `insert_session_event_record` of
    `src/authorship/attribution_recovery.rs`).

    Every recovery stage changes the log in one way only: it claims the unknown lines of a
    file for a session. A trail is the sequence of the claims made. */
module RecoveryTrail {
  import opened Basics
  import opened LineRanges
  import opened AuthorshipLogs
  import opened UnknownLines

  datatype Stage = Bash | Events | Commit

  /** The session a stage attributes lines to, and the agent it knows behind it. */
  datatype Claimant = Claimant(sessionId: string, agentId: AgentId)

  datatype Claim = Claim(stage: Stage, file: string, claimant: Claimant, traceId: string, lines: seq<Line>) {
    function Author(): string {
      AuthorId(claimant.sessionId, traceId)
    }

    ghost predicate Gives(f: string, h: string, l: Line) {
      file == f && Author() == h && l in lines
    }
  }

  function NewSession(agentId: AgentId, human: string): SessionRecord {
    SessionRecord(agentId, map[], Some(human), None)
  }

  /** Insert the session if absent, then record the trace's model if absent. */
  function Recorded(sessions: Sessions, claimant: Claimant, human: string, traceId: string): Sessions {
    var k := claimant.sessionId;
    var record := if k in sessions then sessions[k] else NewSession(claimant.agentId, human);
    sessions[k := record.RecordTraceModel(traceId, claimant.agentId.model)]
  }

  function Attested(atts: seq<FileAttestation>, file: string, author: string, lines: seq<Line>): seq<FileAttestation> {
    var sorted := SortDedup(lines);
    if sorted == [] then atts else WithEntry(atts, file, AttestationEntry(author, Compress(sorted)))
  }

  function ReplayClaim(log: Log, c: Claim, human: string): Log {
    Log(Attested(log.attestations, c.file, c.Author(), c.lines),
        log.metadata.(sessions := Recorded(log.metadata.sessions, c.claimant, human, c.traceId)))
  }

  function Replay(log: Log, trail: seq<Claim>, human: string): Log {
    if trail == [] then log
    else ReplayClaim(Replay(log, trail[..|trail| - 1], human), trail[|trail| - 1], human)
  }

  lemma ReplaySnoc(log: Log, trail: seq<Claim>, c: Claim, human: string)
    ensures Replay(log, trail + [c], human) == ReplayClaim(Replay(log, trail, human), c, human)
  {
  }

  lemma {:induction false} ReplayConcat(log: Log, a: seq<Claim>, b: seq<Claim>, human: string)
    ensures Replay(log, a + b, human) == Replay(Replay(log, a, human), b, human)
  {
    if b == [] {
      assert a + b == a;
    } else {
      var n := |b| - 1;
      var front, c, middle := b[..n], b[n], Replay(log, a, human);
      assert b == front + [c] && a + b == a + front + [c];
      ReplaySnoc(log, a + front, c, human);
      ReplaySnoc(middle, front, c, human);
      assert Replay(log, a + front, human) == Replay(middle, front, human) by {
        ReplayConcat(log, a, front, human);
      }
    }
  }

  // ---------- the methods that make one claim ----------

  method AddAttestation(log: AuthorshipLog, file: string, author: string, lines: seq<Line>)
    modifies log`attestations
    ensures log.attestations == Attested(old(log.attestations), file, author, lines)
  {
    var sorted := SortDedup(lines);
    if sorted == [] {
      return;
    }
    var ranges := CompressLines(sorted);
    if ranges == [] {
      CompressNonEmpty(sorted);
      return;
    }
    log.AddEntry(file, AttestationEntry(author, ranges));
  }

  lemma CompressNonEmpty(lines: seq<Line>)
    requires lines != []
    ensures Compress(lines) != []
  {
    CompressRunNonEmpty(lines[0], lines[0], lines[1..]);
  }

  lemma {:induction false} CompressRunNonEmpty(first: Line, last: Line, rest: seq<Line>)
    ensures CompressRun(first, last, rest) != []
    decreases |rest|
  {
    if rest != [] && rest[0] == Successor(last) {
      CompressRunNonEmpty(first, rest[0], rest[1..]);
    }
  }

  method InsertSessionRecord(log: AuthorshipLog, claimant: Claimant, human: string, traceId: string)
    modifies log`metadata
    ensures log.metadata == old(log.metadata).(
              sessions := Recorded(old(log.metadata.sessions), claimant, human, traceId))
  {
    var sessions := log.metadata.sessions;
    if claimant.sessionId !in sessions {
      sessions := sessions[claimant.sessionId := NewSession(claimant.agentId, human)];
    }
    var record := sessions[claimant.sessionId].RecordTraceModel(traceId, claimant.agentId.model);
    log.metadata := log.metadata.(sessions := sessions[claimant.sessionId := record]);
    assert sessions[claimant.sessionId := record] == Recorded(old(log.metadata.sessions), claimant, human, traceId);
  }

  method MakeClaim(log: AuthorshipLog, c: Claim, human: string)
    modifies log
    ensures log.Value() == ReplayClaim(old(log.Value()), c, human)
  {
    InsertSessionRecord(log, c.claimant, human, c.traceId);
    AddAttestation(log, c.file, c.Author(), c.lines);
  }

  /** One more claim on a log that is the replay of a trail. */
  method ExtendTrail(log: AuthorshipLog, ghost before: Log, trail: seq<Claim>, c: Claim, human: string)
    returns (longer: seq<Claim>)
    requires log.Value() == Replay(before, trail, human)
    modifies log
    ensures longer == trail + [c]
    ensures log.Value() == Replay(before, longer, human)
  {
    MakeClaim(log, c, human);
    longer := trail + [c];
    ReplaySnoc(before, trail, c, human);
  }

  // ---------- what a trail adds ----------

  lemma AttestedClaims(
    atts: seq<FileAttestation>, file: string, author: string, lines: seq<Line>, f: string, h: string, l: Line)
    ensures Claims(Attested(atts, file, author, lines), f, h, l) <==>
            Claims(atts, f, h, l) || (f == file && h == author && l in lines)
  {
    var sorted := SortDedup(lines);
    SortDedupSorts(lines);
    IncreasingIsNonDecreasing(sorted);
    CompressMeaning(sorted, l);
    WithEntryClaims(atts, file, AttestationEntry(author, Compress(sorted)), f, h, l);
    assert sorted == [] ==> l !in sorted;
  }

  /** File `k` of `after` has one entry more than in `before`, at its end, and is the first of its
      path; a path that was not there is new at the end. Every other file is as it was. */
  ghost predicate Appended(
    before: seq<FileAttestation>, after: seq<FileAttestation>, k: nat, path: string, e: AttestationEntry)
  {
    && k < |after| && after[k].path == path
    && (forall i :: 0 <= i < k ==> after[i].path != path)
    && |after| == (if k < |before| then |before| else |before| + 1)
    && after[k].entries == (if k < |before| then before[k].entries else []) + [e]
    && forall i :: 0 <= i < |before| && i != k ==> after[i] == before[i]
  }

  /** Attesting lines appends one entry of the author with canonical ranges for exactly them; no
      lines, no change. */
  lemma AttestedEntry(atts: seq<FileAttestation>, file: string, author: string, lines: seq<Line>)
    ensures lines == [] ==> Attested(atts, file, author, lines) == atts
    ensures lines != [] ==>
              exists k: nat, ranges ::
                && Appended(atts, Attested(atts, file, author, lines), k, file, AttestationEntry(author, ranges))
                && Canonical(ranges) && forall l: Line :: InRanges(ranges, l) <==> l in lines
  {
    var sorted := SortDedup(lines);
    SortDedupSorts(lines);
    if lines != [] {
      assert lines[0] in sorted;
      IncreasingIsNonDecreasing(sorted);
      CompressCanonical(sorted);
      forall l: Line ensures InRanges(Compress(sorted), l) <==> l in lines {
        CompressMeaning(sorted, l);
      }
      var all := WithFile(atts, file);
      assert Appended(atts, Attested(atts, file, author, lines), FileIndex(all, file), file,
                      AttestationEntry(author, Compress(sorted)));
    }
  }

  ghost predicate TrailGives(trail: seq<Claim>, f: string, h: string, l: Line) {
    exists i :: 0 <= i < |trail| && trail[i].Gives(f, h, l)
  }

  lemma TrailGivesSnoc(trail: seq<Claim>, c: Claim, f: string, h: string, l: Line)
    ensures TrailGives(trail + [c], f, h, l) <==> TrailGives(trail, f, h, l) || c.Gives(f, h, l)
  {
    var all := trail + [c];
    assert forall i :: 0 <= i < |trail| ==> all[i] == trail[i];
    assert all[|trail|] == c;
  }

  /** A replay adds exactly what its claims give, and removes nothing. */
  lemma {:induction false} ReplayClaims(log: Log, trail: seq<Claim>, human: string, f: string, h: string, l: Line)
    ensures Claims(Replay(log, trail, human).attestations, f, h, l) <==>
            Claims(log.attestations, f, h, l) || TrailGives(trail, f, h, l)
  {
    if trail != [] {
      var n := |trail| - 1;
      var front, c := trail[..n], trail[n];
      var middle := Replay(log, front, human);
      assert trail == front + [c];
      ReplaySnoc(log, front, c, human);
      AttestedClaims(middle.attestations, c.file, c.Author(), c.lines, f, h, l);
      TrailGivesSnoc(front, c, f, h, l);
      ReplayClaims(log, front, human, f, h, l);
    }
  }

  ghost predicate TrailCovers(trail: seq<Claim>, f: string, l: Line) {
    exists i :: 0 <= i < |trail| && trail[i].file == f && l in trail[i].lines
  }

  lemma ReplayCovers(log: Log, trail: seq<Claim>, human: string, f: string, l: Line)
    ensures Covered(Replay(log, trail, human).attestations, f, l) <==>
            Covered(log.attestations, f, l) || TrailCovers(trail, f, l)
  {
    var after := Replay(log, trail, human).attestations;
    forall h ensures Claims(after, f, h, l) <==> Claims(log.attestations, f, h, l) || TrailGives(trail, f, h, l) {
      ReplayClaims(log, trail, human, f, h, l);
    }
    if Covered(log.attestations, f, l) {
      var h :| Claims(log.attestations, f, h, l);
      assert Claims(after, f, h, l);
    }
    if TrailCovers(trail, f, l) {
      var i :| 0 <= i < |trail| && trail[i].file == f && l in trail[i].lines;
      assert trail[i].Gives(f, trail[i].Author(), l);
      assert Claims(after, f, trail[i].Author(), l);
    }
  }

  /** Every claim is on lines that nobody held: not the log, not an earlier claim. */
  ghost predicate Exclusive(atts: seq<FileAttestation>, trail: seq<Claim>) {
    && (forall i, l: Line :: 0 <= i < |trail| && l in trail[i].lines ==> !Covered(atts, trail[i].file, l))
    && (forall i, j, l: Line :: 0 <= i < j < |trail| && trail[i].file == trail[j].file && l in trail[i].lines ==>
          l !in trail[j].lines)
  }

  /** The frame of an exclusive trail: nothing is removed, a covered line gains no author, and a
      line that had none gains at most one. */
  lemma ExclusiveReplayFrame(log: Log, trail: seq<Claim>, human: string)
    requires Exclusive(log.attestations, trail)
    ensures var after := Replay(log, trail, human).attestations;
            && (forall f, h, l: Line :: Claims(log.attestations, f, h, l) ==> Claims(after, f, h, l))
            && (forall f, h, l: Line :: Covered(log.attestations, f, l) && Claims(after, f, h, l) ==>
                  Claims(log.attestations, f, h, l))
            && (forall f, h1, h2, l: Line ::
                  !Covered(log.attestations, f, l) && Claims(after, f, h1, l) && Claims(after, f, h2, l) ==> h1 == h2)
            && (Unambiguous(log.attestations) ==> Unambiguous(after))
  {
    var before, after := log.attestations, Replay(log, trail, human).attestations;
    forall f, h, l: Line ensures Claims(after, f, h, l) <==> Claims(before, f, h, l) || TrailGives(trail, f, h, l) {
      ReplayClaims(log, trail, human, f, h, l);
    }
    forall f, h1, h2, l: Line | TrailGives(trail, f, h1, l) && TrailGives(trail, f, h2, l) ensures h1 == h2 {
      var i :| 0 <= i < |trail| && trail[i].Gives(f, h1, l);
      var j :| 0 <= j < |trail| && trail[j].Gives(f, h2, l);
      assert i == j;
    }
    forall f, h1, h2, l: Line | Unambiguous(before) && Claims(after, f, h1, l) && Claims(after, f, h2, l)
      ensures h1 == h2
    {
      assert Claims(before, f, h1, l) ==> Covered(before, f, l);
      assert Claims(before, f, h2, l) ==> Covered(before, f, l);
    }
  }

  /** Exclusiveness composes: the second trail is exclusive on what the first leaves. */
  lemma ExclusiveConcat(log: Log, a: seq<Claim>, b: seq<Claim>, human: string)
    requires Exclusive(log.attestations, a)
    requires Exclusive(Replay(log, a, human).attestations, b)
    ensures Exclusive(log.attestations, a + b)
  {
    var all := a + b;
    assert forall i :: 0 <= i < |a| ==> all[i] == a[i];
    forall i, l: Line | 0 <= i < |b| && l in b[i].lines
      ensures !Covered(log.attestations, b[i].file, l) && !TrailCovers(a, b[i].file, l)
    {
      ReplayCovers(log, a, human, b[i].file, l);
    }
    assert forall k :: |a| <= k < |all| ==> all[k] == b[k - |a|];
    forall i, j, l: Line | 0 <= i < j < |all| && all[i].file == all[j].file && l in all[i].lines
      ensures l !in all[j].lines
    {
      assert i < |a| ==> TrailCovers(a, all[i].file, l);
    }
  }

  // ---------- one stage ----------

  /** The trail of one stage: distinct files, each with all its unknown lines and its own choice. */
  ghost predicate StageTrail(
    trail: seq<Claim>, stage: Stage, unknown: LinesByFile,
    choice: string -> Option<Claimant>, traceOf: string -> string)
  {
    && (forall i :: 0 <= i < |trail| ==>
          && trail[i].stage == stage
          && trail[i].file in unknown
          && trail[i].lines == unknown[trail[i].file]
          && choice(trail[i].file) == Some(trail[i].claimant)
          && trail[i].traceId == traceOf(trail[i].file))
    && (forall i, j :: 0 <= i < j < |trail| ==> trail[i].file != trail[j].file)
  }

  ghost predicate Claimed(trail: seq<Claim>, f: string) {
    exists i :: 0 <= i < |trail| && trail[i].file == f
  }

  /** Every file with unknown lines and a choice was claimed. */
  ghost predicate Complete(trail: seq<Claim>, unknown: LinesByFile, choice: string -> Option<Claimant>) {
    forall f :: f in unknown && choice(f).Some? ==> Claimed(trail, f)
  }

  lemma StageTrailSnoc(
    trail: seq<Claim>, c: Claim, stage: Stage, unknown: LinesByFile,
    choice: string -> Option<Claimant>, traceOf: string -> string)
    requires StageTrail(trail, stage, unknown, choice, traceOf)
    requires c.stage == stage && c.file in unknown && c.lines == unknown[c.file]
    requires choice(c.file) == Some(c.claimant) && c.traceId == traceOf(c.file)
    requires !Claimed(trail, c.file)
    ensures StageTrail(trail + [c], stage, unknown, choice, traceOf)
    ensures forall f :: Claimed(trail + [c], f) <==> Claimed(trail, f) || f == c.file
  {
    var all := trail + [c];
    assert forall i :: 0 <= i < |trail| ==> all[i] == trail[i];
    assert all[|trail|] == c;
  }

  /** A stage that starts from the replayed log keeps the whole trail exclusive. */
  lemma StageKeepsExclusive(
    log: Log, trail: seq<Claim>, more: seq<Claim>, human: string, stage: Stage, hunks: Hunks, unknown: LinesByFile,
    choice: string -> Option<Claimant>, traceOf: string -> string)
    requires Exclusive(log.attestations, trail)
    requires ListsUnknown(unknown, Replay(log, trail, human).attestations, hunks)
    requires StageTrail(more, stage, unknown, choice, traceOf)
    ensures Exclusive(log.attestations, trail + more)
    ensures forall i, l: Line :: 0 <= i < |more| && l in more[i].lines ==> InHunks(hunks, more[i].file, l)
  {
    var all := trail + more;
    var middle := Replay(log, trail, human).attestations;
    assert forall i :: 0 <= i < |trail| ==> all[i] == trail[i];
    forall i, l: Line | 0 <= i < |more| && l in more[i].lines
      ensures !Covered(log.attestations, more[i].file, l)
      ensures !TrailCovers(trail, more[i].file, l)
      ensures InHunks(hunks, more[i].file, l)
    {
      assert Lists(unknown, more[i].file, l);
      assert Unknown(middle, hunks, more[i].file, l);
      ReplayCovers(log, trail, human, more[i].file, l);
    }
    assert forall k :: |trail| <= k < |all| ==> all[k] == more[k - |trail|];
    forall i, j, l: Line | 0 <= i < j < |all| && all[i].file == all[j].file && l in all[i].lines
      ensures l !in all[j].lines
    {
      assert i < |trail| ==> TrailCovers(trail, all[i].file, l);
    }
  }

  /** What `h` gets from a stage whose choice for `f` is `choice(f)`. */
  ghost predicate ChosenAuthor(choice: Option<Claimant>, traceId: string, h: string) {
    choice.Some? && h == AuthorId(choice.value.sessionId, traceId)
  }

  /** A stage that ran to the end gives every unknown line of a file with a choice to that
      choice, and gives nothing else. */
  lemma StageEffect(
    log: Log, trail: seq<Claim>, human: string, stage: Stage, hunks: Hunks, unknown: LinesByFile,
    choice: string -> Option<Claimant>, traceOf: string -> string, f: string, h: string, l: Line)
    requires ListsUnknown(unknown, log.attestations, hunks)
    requires StageTrail(trail, stage, unknown, choice, traceOf) && Complete(trail, unknown, choice)
    ensures Claims(Replay(log, trail, human).attestations, f, h, l) <==>
            Claims(log.attestations, f, h, l) ||
            (Unknown(log.attestations, hunks, f, l) && ChosenAuthor(choice(f), traceOf(f), h))
  {
    ReplayClaims(log, trail, human, f, h, l);
    assert Lists(unknown, f, l) <==> Unknown(log.attestations, hunks, f, l);
    if Lists(unknown, f, l) && ChosenAuthor(choice(f), traceOf(f), h) {
      assert Claimed(trail, f);
      var i :| 0 <= i < |trail| && trail[i].file == f;
      assert trail[i].Gives(f, h, l);
    }
  }

  // ---------- sessions ----------

  /** Sessions only gain: every record keeps its identity and all its trace models. */
  ghost predicate SessionsGrow(before: Sessions, after: Sessions) {
    forall k :: k in before ==>
      && k in after
      && after[k].SameSession(before[k])
      && forall t :: t in before[k].traceModels ==>
           t in after[k].traceModels && after[k].traceModels[t] == before[k].traceModels[t]
  }

  lemma {:induction false} ReplayGrowsSessions(log: Log, trail: seq<Claim>, human: string)
    ensures SessionsGrow(log.metadata.sessions, Replay(log, trail, human).metadata.sessions)
    ensures Replay(log, trail, human).metadata == log.metadata.(sessions := Replay(log, trail, human).metadata.sessions)
  {
    if trail != [] {
      ReplayGrowsSessions(log, trail[..|trail| - 1], human);
    }
  }

  /** Trace ids as generated: unused so far in the log, and no two alike. */
  ghost predicate FreshTraces(sessions: Sessions, trail: seq<Claim>) {
    && (forall i, k :: 0 <= i < |trail| && k in sessions ==> trail[i].traceId !in sessions[k].traceModels)
    && (forall i, j :: 0 <= i < j < |trail| ==> trail[i].traceId != trail[j].traceId)
  }

  ghost predicate HoldsModel(sessions: Sessions, c: Claim) {
    var k := c.claimant.sessionId;
    && k in sessions && c.traceId in sessions[k].traceModels
    && sessions[k].traceModels[c.traceId] == c.claimant.agentId.model
  }

  lemma RecordedHoldsModel(sessions: Sessions, c: Claim, other: Claim, human: string)
    ensures HoldsModel(sessions, other) ==> HoldsModel(Recorded(sessions, c.claimant, human, c.traceId), other)
    ensures (c.claimant.sessionId in sessions ==> c.traceId !in sessions[c.claimant.sessionId].traceModels) ==>
              HoldsModel(Recorded(sessions, c.claimant, human, c.traceId), c)
  {
  }

  /** With fresh traces every claimed author has a session record that holds the model its
      claimant was seen with. */
  lemma {:induction false} ReplayRecordsModels(log: Log, trail: seq<Claim>, human: string, i: nat)
    requires i < |trail|
    requires FreshTraces(log.metadata.sessions, trail)
    ensures HoldsModel(Replay(log, trail, human).metadata.sessions, trail[i])
  {
    var n := |trail| - 1;
    var front, c := trail[..n], trail[n];
    var sessions := Replay(log, front, human).metadata.sessions;
    var k := c.claimant.sessionId;
    assert forall j :: 0 <= j < n ==> front[j] == trail[j];
    RecordedHoldsModel(sessions, c, trail[i], human);
    if i < n {
      ReplayRecordsModels(log, front, human, i);
    } else if k in sessions {
      forall t | t in sessions[k].traceModels ensures t != c.traceId {
        ReplayTraceSet(log, front, human, k, t);
      }
    }
  }

  /** Claim `i` is the first of the trail for session `k`. */
  ghost predicate FirstClaim(trail: seq<Claim>, k: string, i: nat) {
    && i < |trail| && trail[i].claimant.sessionId == k
    && forall j :: 0 <= j < i ==> trail[j].claimant.sessionId != k
  }

  ghost predicate ClaimedUnder(trail: seq<Claim>, k: string, t: string) {
    exists i :: 0 <= i < |trail| && trail[i].claimant.sessionId == k && trail[i].traceId == t
  }

  /** The tool, id and default model of session `k`: the log's if it had the session, else the
      first claimant's, in a record for `human` without custom attributes. */
  ghost predicate RecordOf(before: Sessions, trail: seq<Claim>, human: string, k: string, r: SessionRecord) {
    if k in before then
      && r.agentId == before[k].agentId
      && r.humanAuthor == before[k].humanAuthor
      && r.customAttributes == before[k].customAttributes
    else
      && (exists i: nat :: FirstClaim(trail, k, i) && r.agentId == trail[i].claimant.agentId)
      && r.humanAuthor == Some(human)
      && r.customAttributes == None
  }

  /** One claim: which sessions and traces there are, and what a record says. */
  lemma RecordedFields(sessions: Sessions, c: Claim, human: string, k: string)
    ensures var after := Recorded(sessions, c.claimant, human, c.traceId);
            && (k in after <==> k in sessions || k == c.claimant.sessionId)
            && (k in sessions ==> after[k].SameSession(sessions[k]))
            && (k in after && k !in sessions ==>
                  && after[k].agentId == c.claimant.agentId
                  && after[k].humanAuthor == Some(human)
                  && after[k].customAttributes == None)
            && (k in after ==>
                  forall t :: t in after[k].traceModels <==>
                    (k in sessions && t in sessions[k].traceModels) || (k == c.claimant.sessionId && t == c.traceId))
  {
  }

  /** After a replay exactly the sessions of the log and of the claims have a record. */
  lemma {:induction false} ReplayRecords(log: Log, trail: seq<Claim>, human: string, k: string)
    ensures var before, after := log.metadata.sessions, Replay(log, trail, human).metadata.sessions;
            && (k in after <==> k in before || exists i: nat :: FirstClaim(trail, k, i))
            && (k in after ==> RecordOf(before, trail, human, k, after[k]))
  {
    if trail != [] {
      var n := |trail| - 1;
      ReplayRecords(log, trail[..n], human, k);
      RecordedFields(Replay(log, trail[..n], human).metadata.sessions, trail[n], human, k);
      FirstClaimSnoc(trail, k);
    }
  }

  /** And a record holds exactly the traces the log had for it and those of its claims. */
  lemma {:induction false} ReplayTraceSet(log: Log, trail: seq<Claim>, human: string, k: string, t: string)
    requires k in Replay(log, trail, human).metadata.sessions
    ensures var before := log.metadata.sessions;
            t in Replay(log, trail, human).metadata.sessions[k].traceModels <==>
            (k in before && t in before[k].traceModels) || ClaimedUnder(trail, k, t)
  {
    if trail != [] {
      var n := |trail| - 1;
      var front, c := trail[..n], trail[n];
      var sessions := Replay(log, front, human).metadata.sessions;
      RecordedFields(sessions, c, human, k);
      assert forall j :: 0 <= j < n ==> front[j] == trail[j];
      assert ClaimedUnder(trail, k, t) <==>
             ClaimedUnder(front, k, t) || (c.claimant.sessionId == k && c.traceId == t);
      if k in sessions {
        ReplayTraceSet(log, front, human, k, t);
      } else {
        ReplayRecords(log, front, human, k);
        NotClaimed(front, k, t);
      }
    }
  }

  lemma NotClaimed(trail: seq<Claim>, k: string, t: string)
    requires forall i: nat :: !FirstClaim(trail, k, i)
    ensures !ClaimedUnder(trail, k, t)
  {
    if j: nat :| j < |trail| && trail[j].claimant.sessionId == k && trail[j].traceId == t {
      var i := FirstIndex(trail, k, j);
    }
  }

  lemma FirstClaimSnoc(trail: seq<Claim>, k: string)
    requires trail != []
    ensures var n := |trail| - 1;
            && (forall i: nat :: FirstClaim(trail[..n], k, i) ==> FirstClaim(trail, k, i) && trail[..n][i] == trail[i])
            && (forall i: nat :: FirstClaim(trail, k, i) && i < n ==> FirstClaim(trail[..n], k, i))
            && (trail[n].claimant.sessionId == k ==>
                  (exists i: nat :: FirstClaim(trail[..n], k, i)) || FirstClaim(trail, k, n))
  {
    var n := |trail| - 1;
    var front := trail[..n];
    assert forall j :: 0 <= j < n ==> front[j] == trail[j];
    if j :| 0 <= j < n && front[j].claimant.sessionId == k {
      var i := FirstIndex(front, k, j);
    }
  }

  lemma {:induction false} FirstIndex(trail: seq<Claim>, k: string, j: nat) returns (i: nat)
    requires j < |trail| && trail[j].claimant.sessionId == k
    ensures FirstClaim(trail, k, i)
    decreases j
  {
    i := j;
    if m: nat :| m < j && trail[m].claimant.sessionId == k {
      i := FirstIndex(trail, k, m);
    }
  }

  /** So the author id resolves: to the session's tool and id, and to the model its own claimant
      was seen with. */
  lemma RecoveredAuthorResolves(log: Log, trail: seq<Claim>, human: string, i: nat)
    requires i < |trail|
    requires FreshTraces(log.metadata.sessions, trail)
    requires Splittable(trail[i].claimant.sessionId)
    ensures var k, model := trail[i].claimant.sessionId, trail[i].claimant.agentId.model;
            var before := log.metadata.sessions;
            var id := ResolveSession(Replay(log, trail, human).metadata.sessions, trail[i].Author());
            if k in before then id == Some(AgentId(before[k].agentId.tool, before[k].agentId.id, model))
            else exists j: nat :: FirstClaim(trail, k, j) &&
                             var first := trail[j].claimant.agentId;
                             id == Some(AgentId(first.tool, first.id, model))
  {
    ReplayRecordsModels(log, trail, human, i);
    ReplayRecords(log, trail, human, trail[i].claimant.sessionId);
    AuthorIdRoundTrip(trail[i].claimant.sessionId, trail[i].traceId);
  }
}
