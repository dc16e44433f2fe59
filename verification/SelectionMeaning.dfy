/** What the Bash and session-event selectors pick, in terms of the recorded calls, events and
    timestamps alone (`src/authorship/attribution_recovery.rs`): no distance, tier or key
    function of the selectors occurs in the statements. */
module SelectionMeaning {
  import opened Basics
  import opened AuthorshipLogs
  import opened Selection

  // ---------- Bash calls ----------

  /** `u` is an instant of the call: from its start to its end, the start alone without an end. */
  ghost predicate DuringCall(call: BashCall, u: int) {
    call.startNs <= u && (u == call.startNs || (call.endNs.Some? && u <= call.endNs.value))
  }

  /** `d` is how far `t` is from the nearest instant of the call. */
  ghost predicate IsGap(d: int, t: int, call: BashCall) {
    && (exists u :: DuringCall(call, u) && d == AbsDiff(t, u))
    && (forall u :: DuringCall(call, u) ==> d <= AbsDiff(t, u))
  }

  /** `d` is the least gap of a supporting timestamp. */
  ghost predicate IsCallGap(d: int, call: BashCall, timestamps: seq<Nanos>) {
    && (exists i :: 0 <= i < |timestamps| && Supports(timestamps[i], call) && IsGap(d, timestamps[i], call))
    && (forall i, e :: 0 <= i < |timestamps| && Supports(timestamps[i], call) && IsGap(e, timestamps[i], call) ==>
          d <= e)
  }

  /** The distance to the call's window is the true point-to-interval minimum. */
  lemma CallDistanceIsMinimum(t: Nanos, call: BashCall)
    requires Supports(t, call)
    ensures RecoveryDistance(t, call).Some? && IsGap(RecoveryDistance(t, call).value, t, call)
  {
    RecoveryDistanceSupports(t, call);
    var d := RecoveryDistance(t, call).value;
    var u := if t < call.startNs || call.endNs.None? then call.startNs else t;
    assert DuringCall(call, u) && d == AbsDiff(t, u);
  }

  lemma GapUnique(d: int, e: int, t: int, call: BashCall)
    requires IsGap(d, t, call) && IsGap(e, t, call)
    ensures d == e
  {
    var u :| DuringCall(call, u) && d == AbsDiff(t, u);
    var v :| DuringCall(call, v) && e == AbsDiff(t, v);
  }

  lemma CallDistanceIsGap(call: BashCall, timestamps: seq<Nanos>)
    requires CallDistance(call, timestamps).Some?
    ensures IsCallGap(CallDistance(call, timestamps).value, call, timestamps)
    ensures forall d :: IsCallGap(d, call, timestamps) ==> d == CallDistance(call, timestamps).value
  {
    CallDistanceMeaning(call, timestamps);
    var d := CallDistance(call, timestamps);
    var i :| 0 <= i < |timestamps| && RecoveryDistance(timestamps[i], call) == d;
    RecoveryDistanceSupports(timestamps[i], call);
    CallDistanceIsMinimum(timestamps[i], call);
    forall j, e | 0 <= j < |timestamps| && Supports(timestamps[j], call) && IsGap(e, timestamps[j], call)
      ensures d.value <= e
    {
      CallDistanceIsMinimum(timestamps[j], call);
      GapUnique(e, RecoveryDistance(timestamps[j], call).value, timestamps[j], call);
    }
  }

  /** What the source prefers in a call `a` at gap `da` over `b` at gap `db`: a session already in
      the commit, then the nearer, then a finished call, then one with a command, then the
      later id. */
  ghost predicate BashPrefers(ctx: BashContext, a: BashCall, da: int, b: BashCall, db: int) {
    if InCommit(a, ctx) != InCommit(b, ctx) then InCommit(a, ctx)
    else if da != db then da < db
    else if a.endNs.Some? != b.endNs.Some? then a.endNs.Some?
    else if a.command.Some? != b.command.Some? then a.command.Some?
    else a.id > b.id
  }

  /** `call` has evidence, and no call with evidence is preferred to it. */
  ghost predicate IsBestBash(call: BashCall, rows: seq<BashCall>, ctx: BashContext) {
    && call in rows && BashEvidence(call, ctx)
    && forall c, dc, d :: c in rows && BashEvidence(c, ctx) &&
                          IsCallGap(dc, c, ctx.timestamps) && IsCallGap(d, call, ctx.timestamps) ==>
         !BashPrefers(ctx, c, dc, call, d)
  }

  /** Nothing is picked exactly when no call has evidence; otherwise a best call, at its true
      distance, which is within 3 s. */
  lemma BashPickMeaning(candidates: seq<BashCall>, ctx: BashContext)
    ensures var pick := SelectBestBash(candidates, ctx);
            && (pick.None? <==> forall c :: c in candidates ==> !BashEvidence(c, ctx))
            && (pick.Some? ==>
                  && IsBestBash(pick.value.call, candidates, ctx)
                  && IsCallGap(pick.value.distance, pick.value.call, ctx.timestamps)
                  && pick.value.distance <= 3_000_000_000)
  {
    SelectBestBashIsArgmin(candidates, ctx);
    var pick := SelectBestBash(candidates, ctx);
    if pick.Some? {
      var call := pick.value.call;
      EligibleBashMeaning(call, ctx);
      CallDistanceIsGap(call, ctx.timestamps);
      forall c, dc, d | c in candidates && BashEvidence(c, ctx) &&
                        IsCallGap(dc, c, ctx.timestamps) && IsCallGap(d, call, ctx.timestamps)
        ensures !BashPrefers(ctx, c, dc, call, d)
      {
        EligibleBashMeaning(c, ctx);
        CallDistanceIsGap(c, ctx.timestamps);
        assert !BashBetter(EligibleBash(c, ctx).value, pick.value);
      }
    }
  }

  /** So a pick of a session outside the commit means that no call with evidence is of one in it. */
  lemma OutsidePickMeansNoneInside(candidates: seq<BashCall>, ctx: BashContext, c: BashCall)
    requires SelectBestBash(candidates, ctx).Some? && !InCommit(SelectBestBash(candidates, ctx).value.call, ctx)
    requires c in candidates && BashEvidence(c, ctx)
    ensures !InCommit(c, ctx)
  {
    BashPickMeaning(candidates, ctx);
    EligibleBashMeaning(c, ctx);
    CallDistanceIsGap(c, ctx.timestamps);
  }

  // ---------- session events ----------

  /** `d` is the least distance of a timestamp from the event's second. */
  ghost predicate IsEventGap(d: int, e: SessionEvent, timestamps: seq<Nanos>) {
    && (exists i, u :: 0 <= i < |timestamps| && DuringEvent(e, u) && d == AbsDiff(timestamps[i], u))
    && (forall i, u :: 0 <= i < |timestamps| && DuringEvent(e, u) ==> d <= AbsDiff(timestamps[i], u))
  }

  lemma EventDistanceIsGap(e: SessionEvent, timestamps: seq<Nanos>)
    requires EventDistance(e, timestamps).Some?
    ensures IsEventGap(EventDistance(e, timestamps).value, e, timestamps)
    ensures forall d :: IsEventGap(d, e, timestamps) ==> d == EventDistance(e, timestamps).value
  {
    EventDistanceMeaning(e, timestamps);
    var d := EventDistance(e, timestamps).value;
    var i :| 0 <= i < |timestamps| && d == DistanceToEventSecond(timestamps[i], e.eventTs);
    EventDistanceIsMinimum(timestamps[i], e.eventTs);
    var start := EventStart(e.eventTs);
    var u :| start <= u < start + NS_PER_SECOND && d == AbsDiff(timestamps[i], u);
    assert DuringEvent(e, u);
    forall j, v | 0 <= j < |timestamps| && DuringEvent(e, v) ensures d <= AbsDiff(timestamps[j], v) {
      EventDistanceIsMinimum(timestamps[j], e.eventTs);
    }
  }

  /** `e` has evidence, and no event with evidence is nearer, or as near in a later row. */
  ghost predicate IsBestEvent(e: SessionEvent, rows: seq<SessionEvent>, timestamps: seq<Nanos>, repoUrl: string) {
    && e in rows && EventEvidence(e, timestamps, repoUrl)
    && forall c, dc, d :: c in rows && EventEvidence(c, timestamps, repoUrl) &&
                          IsEventGap(dc, c, timestamps) && IsEventGap(d, e, timestamps) ==>
         !(dc < d || (dc == d && c.rowId > e.rowId))
  }

  lemma EventPickMeaning(candidates: seq<SessionEvent>, timestamps: seq<Nanos>, repoUrl: string)
    ensures var pick := SelectBestEvent(candidates, timestamps, repoUrl);
            && (pick.None? <==> forall e :: e in candidates ==> !EventEvidence(e, timestamps, repoUrl))
            && (pick.Some? ==>
                  && IsBestEvent(pick.value.event, candidates, timestamps, repoUrl)
                  && IsEventGap(pick.value.distance, pick.value.event, timestamps)
                  && pick.value.distance <= 3_000_000_000)
  {
    SelectBestEventIsArgmin(candidates, timestamps, repoUrl);
    var pick := SelectBestEvent(candidates, timestamps, repoUrl);
    if pick.Some? {
      var e := pick.value.event;
      EligibleEventMeaning(e, timestamps, repoUrl);
      EventDistanceIsGap(e, timestamps);
      forall c, dc, d | c in candidates && EventEvidence(c, timestamps, repoUrl) &&
                        IsEventGap(dc, c, timestamps) && IsEventGap(d, e, timestamps)
        ensures !(dc < d || (dc == d && c.rowId > e.rowId))
      {
        EligibleEventMeaning(c, timestamps, repoUrl);
        EventDistanceIsGap(c, timestamps);
        assert !EventBetter(EligibleEvent(c, timestamps, repoUrl).value, pick.value);
      }
    }
  }

  /** The agent is the event's: its tool, its external session and its model, `unknown` if it
      names none. */
  ghost predicate DescribesEvent(id: AgentId, e: SessionEvent) {
    && id.tool == e.tool
    && id.id == e.externalSessionId
    && id.model == if e.model.None? || e.model.value == "" then "unknown" else e.model.value
  }
}
