/** Choosing the session for a commit whose metadata names an agent
    (`select_commit_metadata_session` and the selectors it calls, in
    `src/authorship/attribution_recovery.rs`). The metrics database is an input: what each
    access answers, or how it fails. */
module CommitSelection {
  import opened Basics
  import opened LineRanges
  import opened AuthorshipLogs
  import opened Selection
  import opened SelectionMeaning
  import opened LogSessions

  datatype Db<+T> = OpenFailed | LockTimedOut | QueryFailed | Rows(rows: T)

  /** The latest-session lookup opens the database once and then queries per detection. */
  datatype LatestDb = LatestOpenFailed | LatestLockTimedOut | Opened(query: seq<string> -> Option<seq<SessionEvent>>)

  datatype SelectionTier = ExistingCommitSession | NearestFileTimestamp | LatestMatchingToolSession | SynthesizedSession

  datatype CommitPick = CommitPick(
    sessionId: string,
    agentId: AgentId,
    tier: SelectionTier,
    event: Option<SessionEvent>,
    distance: Option<Nanos>)

  // ---------- sessions from the metrics database ----------

  ghost predicate SameRepo(e: SessionEvent, repoUrl: Option<string>) {
    repoUrl.Some? && e.repoUrl == repoUrl
  }

  /** Both repositories are known and differ. */
  ghost predicate OtherRepo(e: SessionEvent, repoUrl: Option<string>) {
    repoUrl.Some? && e.repoUrl.Some? && e.repoUrl.value != repoUrl.value
  }

  /** Same repository, or not comparable; a different repository excludes the event. */
  function RepoTier(e: SessionEvent, repoUrl: Option<string>): Option<int> {
    match (repoUrl, e.repoUrl)
    case (Some(target), Some(url)) => if url == target then Some(0) else None
    case _ => Some(1)
  }

  lemma RepoTierMeaning(e: SessionEvent, repoUrl: Option<string>)
    ensures RepoTier(e, repoUrl).None? <==> OtherRepo(e, repoUrl)
    ensures RepoTier(e, repoUrl).Some? ==>
              RepoTier(e, repoUrl).value == if SameRepo(e, repoUrl) then 0 else 1
  {
  }

  function FirstMatch(detections: seq<AgentKind>, tool: string): (r: Option<nat>)
    ensures r.None? <==> forall i :: 0 <= i < |detections| ==> !MatchesTool(detections[i], tool)
    ensures r.Some? ==> r.value < |detections| && MatchesTool(detections[r.value], tool) &&
                        forall i :: 0 <= i < r.value ==> !MatchesTool(detections[i], tool)
  {
    if detections == [] then None
    else
      var n := |detections| - 1;
      var front := FirstMatch(detections[..n], tool);
      if front.Some? then front else if MatchesTool(detections[n], tool) then Some(n) else None
  }

  datatype NearestCandidate = NearestCandidate(index: nat, tier: int, distance: Nanos, event: SessionEvent)

  function EligibleNearest(
    e: SessionEvent, detections: seq<AgentKind>, timestamps: seq<Nanos>, repoUrl: Option<string>)
    : Option<NearestCandidate>
  {
    var index := FirstMatch(detections, e.tool);
    var distance := EventDistance(e, timestamps);
    var tier := RepoTier(e, repoUrl);
    if index.None? || distance.None? || distance.value > SESSION_EVENT_RECOVERY_WINDOW_NS || tier.None? then None
    else Some(NearestCandidate(index.value, tier.value, distance.value, e))
  }

  function NearestKey(c: NearestCandidate): seq<int> {
    [c.index, c.tier, c.distance, -c.event.rowId]
  }

  /** The source's replacement test, link by link. */
  predicate NearestBetter(a: NearestCandidate, b: NearestCandidate) {
    || a.index < b.index
    || (a.index == b.index &&
        (a.tier < b.tier ||
         (a.tier == b.tier &&
          (a.distance < b.distance ||
           (a.distance == b.distance && a.event.rowId > b.event.rowId)))))
  }

  lemma NearestKeyOrders(a: NearestCandidate, b: NearestCandidate)
    ensures LexLess(NearestKey(a), NearestKey(b)) <==> NearestBetter(a, b)
  {
    var k, m := NearestKey(a), NearestKey(b);
    LexStep(k, m, 0);
    LexStep(k, m, 1);
    LexStep(k, m, 2);
    LexStep(k, m, 3);
  }

  function BestNearest(
    rows: seq<SessionEvent>, detections: seq<AgentKind>, timestamps: seq<Nanos>, repoUrl: Option<string>)
    : Option<NearestCandidate>
  {
    MinBy(FilterMap(rows, (e: SessionEvent) => EligibleNearest(e, detections, timestamps, repoUrl)), NearestKey)
  }

  method ScanNearest(
    rows: seq<SessionEvent>, detections: seq<AgentKind>, timestamps: seq<Nanos>, repoUrl: Option<string>)
    returns (best: Option<NearestCandidate>)
    ensures best == BestNearest(rows, detections, timestamps, repoUrl)
  {
    best := None;
    ghost var f := (e: SessionEvent) => EligibleNearest(e, detections, timestamps, repoUrl);
    for i := 0 to |rows|
      invariant best == MinBy(FilterMap(rows[..i], f), NearestKey)
    {
      assert rows[..i + 1][..i] == rows[..i];
      var candidate := EligibleNearest(rows[i], detections, timestamps, repoUrl);
      if candidate.Some? {
        ghost var front := FilterMap(rows[..i], f);
        assert FilterMap(rows[..i + 1], f) == front + [candidate.value];
        assert (front + [candidate.value])[..|front|] == front;
        if best.Some? {
          NearestKeyOrders(candidate.value, best.value);
        }
        if best.None? || NearestBetter(candidate.value, best.value) {
          best := candidate;
        }
      }
    }
    assert rows[..|rows|] == rows;
  }

  /** The facts a nearest pick rests on: a detected tool, a timestamp within 3 s, and no other
      repository. */
  ghost predicate NearestEvidence(
    e: SessionEvent, detections: seq<AgentKind>, timestamps: seq<Nanos>, repoUrl: Option<string>)
  {
    && (exists i :: 0 <= i < |detections| && MatchesTool(detections[i], e.tool))
    && NearEvent(e, timestamps)
    && !OtherRepo(e, repoUrl)
  }

  lemma EligibleNearestMeaning(
    e: SessionEvent, detections: seq<AgentKind>, timestamps: seq<Nanos>, repoUrl: Option<string>)
    ensures var c := EligibleNearest(e, detections, timestamps, repoUrl);
            && (c.Some? <==> NearestEvidence(e, detections, timestamps, repoUrl))
            && (c.Some? ==>
                  && c.value.event == e
                  && FirstMatch(detections, e.tool) == Some(c.value.index)
                  && c.value.tier == (if SameRepo(e, repoUrl) then 0 else 1)
                  && IsEventGap(c.value.distance, e, timestamps)
                  && forall d :: IsEventGap(d, e, timestamps) ==> d == c.value.distance)
  {
    WithinEventWindow(e, timestamps);
    RepoTierMeaning(e, repoUrl);
    if EventDistance(e, timestamps).Some? {
      EventDistanceIsGap(e, timestamps);
    }
  }

  ghost predicate NoneNearest(
    rows: seq<SessionEvent>, detections: seq<AgentKind>, timestamps: seq<Nanos>, repoUrl: Option<string>)
  {
    forall e :: e in rows ==> !NearestEvidence(e, detections, timestamps, repoUrl)
  }

  /** What the source prefers in `a` at gap `da` over `b` at gap `db`: the tool of an earlier
      detection, then the same repository, then the nearer, then the later row. */
  ghost predicate NearestPrefers(
    detections: seq<AgentKind>, repoUrl: Option<string>, a: SessionEvent, da: int, b: SessionEvent, db: int)
  {
    var i, j := FirstMatch(detections, a.tool), FirstMatch(detections, b.tool);
    if i != j then i.Some? && (j.None? || i.value < j.value)
    else if SameRepo(a, repoUrl) != SameRepo(b, repoUrl) then SameRepo(a, repoUrl)
    else if da != db then da < db
    else a.rowId > b.rowId
  }

  ghost predicate IsBestNearest(
    e: SessionEvent, rows: seq<SessionEvent>, detections: seq<AgentKind>, timestamps: seq<Nanos>,
    repoUrl: Option<string>)
  {
    && e in rows && NearestEvidence(e, detections, timestamps, repoUrl)
    && forall c, dc, d :: c in rows && NearestEvidence(c, detections, timestamps, repoUrl) &&
                          IsEventGap(dc, c, timestamps) && IsEventGap(d, e, timestamps) ==>
         !NearestPrefers(detections, repoUrl, c, dc, e, d)
  }

  /** The nearest lookup finds nothing exactly when no row has evidence; otherwise a best row, at
      its true distance. */
  lemma BestNearestIsArgmin(
    rows: seq<SessionEvent>, detections: seq<AgentKind>, timestamps: seq<Nanos>, repoUrl: Option<string>)
    ensures var best := BestNearest(rows, detections, timestamps, repoUrl);
            && (best.None? <==> NoneNearest(rows, detections, timestamps, repoUrl))
            && (best.Some? ==>
                  && IsBestNearest(best.value.event, rows, detections, timestamps, repoUrl)
                  && IsEventGap(best.value.distance, best.value.event, timestamps))
  {
    var f := (e: SessionEvent) => EligibleNearest(e, detections, timestamps, repoUrl);
    var eligible := FilterMap(rows, f);
    MinByIsMinimum(eligible, NearestKey);
    FilterMapEmpty(rows, f);
    forall e: SessionEvent
      ensures f(e).Some? <==> NearestEvidence(e, detections, timestamps, repoUrl)
      ensures f(e).Some? ==> f(e).value.event == e && IsEventGap(f(e).value.distance, e, timestamps)
    {
      EligibleNearestMeaning(e, detections, timestamps, repoUrl);
    }
    if eligible != [] {
      var best := BestNearest(rows, detections, timestamps, repoUrl).value;
      FilterMapMeaning(rows, f, best);
      assert f(best.event) == Some(best);
      forall c, dc, d | c in rows && NearestEvidence(c, detections, timestamps, repoUrl) &&
                        IsEventGap(dc, c, timestamps) && IsEventGap(d, best.event, timestamps)
        ensures !NearestPrefers(detections, repoUrl, c, dc, best.event, d)
      {
        FilterMapMeaning(rows, f, f(c).value);
        NearestKeyOrders(f(c).value, best);
        NearestOrderMeaning(f(c).value, best, detections, timestamps, repoUrl, dc, d);
      }
    }
  }

  lemma NearestOrderMeaning(
    a: NearestCandidate, b: NearestCandidate, detections: seq<AgentKind>, timestamps: seq<Nanos>,
    repoUrl: Option<string>, da: int, db: int)
    requires EligibleNearest(a.event, detections, timestamps, repoUrl) == Some(a)
    requires EligibleNearest(b.event, detections, timestamps, repoUrl) == Some(b)
    requires IsEventGap(da, a.event, timestamps) && IsEventGap(db, b.event, timestamps)
    ensures NearestBetter(a, b) <==> NearestPrefers(detections, repoUrl, a.event, da, b.event, db)
  {
    EligibleNearestMeaning(a.event, detections, timestamps, repoUrl);
    EligibleNearestMeaning(b.event, detections, timestamps, repoUrl);
  }

  /** With distinct row ids the nearest lookup does not depend on the order of the rows. */
  lemma BestNearestOrderIndependent(
    a: seq<SessionEvent>, b: seq<SessionEvent>, detections: seq<AgentKind>, timestamps: seq<Nanos>,
    repoUrl: Option<string>)
    requires multiset(a) == multiset(b)
    requires forall c, d :: c in a && d in a && c.rowId == d.rowId ==> c == d
    ensures BestNearest(a, detections, timestamps, repoUrl) == BestNearest(b, detections, timestamps, repoUrl)
  {
    var f := (e: SessionEvent) => EligibleNearest(e, detections, timestamps, repoUrl);
    var s, t := FilterMap(a, f), FilterMap(b, f);
    assert forall c :: c in a <==> c in multiset(a);
    assert forall c :: c in b <==> c in multiset(b);
    forall x ensures x in s <==> x in t {
      FilterMapMeaning(a, f, x);
      FilterMapMeaning(b, f, x);
    }
    forall x, y | x in s && y in s && NearestKey(x) == NearestKey(y) ensures x == y {
      FilterMapMeaning(a, f, x);
      FilterMapMeaning(a, f, y);
      assert NearestKey(x)[3] == NearestKey(y)[3];
    }
    MinByOrderIndependent(s, t, NearestKey);
  }

  datatype LatestCandidate = LatestCandidate(tier: int, event: SessionEvent)

  function EligibleLatest(e: SessionEvent, repoUrl: Option<string>): Option<LatestCandidate> {
    var tier := RepoTier(e, repoUrl);
    if tier.None? then None else Some(LatestCandidate(tier.value, e))
  }

  function LatestKey(c: LatestCandidate): seq<int> {
    [c.tier, 0 - c.event.eventTs, -c.event.rowId]
  }

  function BestLatest(rows: seq<SessionEvent>, repoUrl: Option<string>): Option<LatestCandidate> {
    MinBy(FilterMap(rows, (e: SessionEvent) => EligibleLatest(e, repoUrl)), LatestKey)
  }

  predicate LatestBetter(a: LatestCandidate, b: LatestCandidate) {
    if a.tier != b.tier then a.tier < b.tier
    else if a.event.eventTs != b.event.eventTs then a.event.eventTs > b.event.eventTs
    else a.event.rowId > b.event.rowId
  }

  lemma LatestKeyOrders(a: LatestCandidate, b: LatestCandidate)
    ensures LexLess(LatestKey(a), LatestKey(b)) <==> LatestBetter(a, b)
  {
    var k, m := LatestKey(a), LatestKey(b);
    LexStep(k, m, 0);
    LexStep(k, m, 1);
    LexStep(k, m, 2);
  }

  /** A compatible row, and none is preferred to it: the same repository, then the later event,
      then the later row. */
  ghost predicate IsBestLatest(e: SessionEvent, rows: seq<SessionEvent>, repoUrl: Option<string>) {
    && e in rows && !OtherRepo(e, repoUrl)
    && forall c :: c in rows && !OtherRepo(c, repoUrl) ==> !LatestPrefers(repoUrl, c, e)
  }

  ghost predicate LatestPrefers(repoUrl: Option<string>, a: SessionEvent, b: SessionEvent) {
    if SameRepo(a, repoUrl) != SameRepo(b, repoUrl) then SameRepo(a, repoUrl)
    else if a.eventTs != b.eventTs then a.eventTs > b.eventTs
    else a.rowId > b.rowId
  }

  lemma BestLatestIsArgmin(rows: seq<SessionEvent>, repoUrl: Option<string>)
    ensures var best := BestLatest(rows, repoUrl);
            && (best.None? <==> forall e :: e in rows ==> OtherRepo(e, repoUrl))
            && (best.Some? ==> IsBestLatest(best.value.event, rows, repoUrl))
  {
    var f := (e: SessionEvent) => EligibleLatest(e, repoUrl);
    var eligible := FilterMap(rows, f);
    MinByIsMinimum(eligible, LatestKey);
    FilterMapEmpty(rows, f);
    forall e: SessionEvent
      ensures f(e).None? <==> OtherRepo(e, repoUrl)
      ensures f(e).Some? ==> f(e).value == LatestCandidate(if SameRepo(e, repoUrl) then 0 else 1, e)
    {
      RepoTierMeaning(e, repoUrl);
    }
    if eligible != [] {
      var best := BestLatest(rows, repoUrl).value;
      FilterMapMeaning(rows, f, best);
      forall c | c in rows && !OtherRepo(c, repoUrl) ensures !LatestPrefers(repoUrl, c, best.event) {
        FilterMapMeaning(rows, f, f(c).value);
        LatestKeyOrders(f(c).value, best);
      }
    }
  }

  lemma BestLatestOrderIndependent(a: seq<SessionEvent>, b: seq<SessionEvent>, repoUrl: Option<string>)
    requires multiset(a) == multiset(b)
    requires forall c, d :: c in a && d in a && c.rowId == d.rowId ==> c == d
    ensures BestLatest(a, repoUrl) == BestLatest(b, repoUrl)
  {
    var f := (e: SessionEvent) => EligibleLatest(e, repoUrl);
    var s, t := FilterMap(a, f), FilterMap(b, f);
    assert forall c :: c in a <==> c in multiset(a);
    assert forall c :: c in b <==> c in multiset(b);
    forall x ensures x in s <==> x in t {
      FilterMapMeaning(a, f, x);
      FilterMapMeaning(b, f, x);
    }
    forall x, y | x in s && y in s && LatestKey(x) == LatestKey(y) ensures x == y {
      FilterMapMeaning(a, f, x);
      FilterMapMeaning(a, f, y);
      assert LatestKey(x)[2] == LatestKey(y)[2];
    }
    MinByOrderIndependent(s, t, LatestKey);
  }

  /** The answer for one detection was read and holds no compatible row. */
  ghost predicate LatestAbsent(answer: Option<seq<SessionEvent>>, repoUrl: Option<string>) {
    answer.Some? && forall e :: e in answer.value ==> OtherRepo(e, repoUrl)
  }

  ghost predicate AllLatestAbsent(db: LatestDb, detections: seq<AgentKind>, repoUrl: Option<string>) {
    db.Opened? && forall i :: 0 <= i < |detections| ==> LatestAbsent(db.query(detections[i].tools), repoUrl)
  }

  /** The lookup gets as far as detection `d`: those before it were read and hold nothing. */
  ghost predicate LatestReaches(db: LatestDb, detections: seq<AgentKind>, repoUrl: Option<string>, d: nat) {
    && d < |detections| && db.Opened?
    && forall i :: 0 <= i < d ==> LatestAbsent(db.query(detections[i].tools), repoUrl)
  }

  /** Detection `d` is the first with a compatible row, and everything up to it was read. */
  ghost predicate LatestFoundAt(db: LatestDb, detections: seq<AgentKind>, repoUrl: Option<string>, d: nat) {
    && LatestReaches(db, detections, repoUrl, d)
    && db.query(detections[d].tools).Some?
    && exists e :: e in db.query(detections[d].tools).value && !OtherRepo(e, repoUrl)
  }

  /** The database could not be opened, or a query failed before anything was found. */
  ghost predicate LatestUnread(db: LatestDb, detections: seq<AgentKind>, repoUrl: Option<string>) {
    !db.Opened? || exists d: nat :: LatestReaches(db, detections, repoUrl, d) && db.query(detections[d].tools).None?
  }

  function PickFromEvent(e: SessionEvent, tier: SelectionTier, distance: Option<Nanos>): CommitPick {
    CommitPick(e.sessionId, EventAgent(e), tier, Some(e), distance)
  }

  /** The best row of the first detection that has a compatible one. */
  ghost predicate IsLatestPick(db: LatestDb, detections: seq<AgentKind>, repoUrl: Option<string>, pick: CommitPick) {
    exists d: nat ::
      && LatestFoundAt(db, detections, repoUrl, d)
      && var best := BestLatest(db.query(detections[d].tools).value, repoUrl);
         best.Some? && pick == PickFromEvent(best.value.event, LatestMatchingToolSession, None)
  }

  /** Detections in order; the first failed query ends the lookup as unavailable. */
  method SelectLatest(db: LatestDb, detections: seq<AgentKind>, repoUrl: Option<string>, unavailable: bool)
    returns (pick: Option<CommitPick>, unavailable': bool)
    ensures unavailable' <==> unavailable || LatestUnread(db, detections, repoUrl)
    ensures pick.None? <==> LatestUnread(db, detections, repoUrl) || AllLatestAbsent(db, detections, repoUrl)
    ensures pick.Some? ==> IsLatestPick(db, detections, repoUrl, pick.value)
  {
    unavailable' := unavailable;
    pick := None;
    if !db.Opened? {
      unavailable' := true;
      return;
    }
    for d := 0 to |detections|
      invariant forall i :: 0 <= i < d ==> LatestAbsent(db.query(detections[i].tools), repoUrl)
    {
      assert LatestReaches(db, detections, repoUrl, d);
      var answer := db.query(detections[d].tools);
      if answer.None? {
        unavailable' := true;
        return;
      }
      BestLatestIsArgmin(answer.value, repoUrl);
      var best := BestLatest(answer.value, repoUrl);
      if best.Some? {
        pick := Some(PickFromEvent(best.value.event, LatestMatchingToolSession, None));
        assert LatestFoundAt(db, detections, repoUrl, d);
        LatestOutcomes(db, detections, repoUrl, d);
        return;
      }
    }
  }

  /** Finding a row excludes the other two outcomes of the lookup, and fixes the detection. */
  lemma LatestOutcomes(db: LatestDb, detections: seq<AgentKind>, repoUrl: Option<string>, d: nat)
    requires LatestFoundAt(db, detections, repoUrl, d)
    ensures !LatestUnread(db, detections, repoUrl) && !AllLatestAbsent(db, detections, repoUrl)
    ensures forall c: nat :: LatestFoundAt(db, detections, repoUrl, c) ==> c == d
  {
    assert !LatestAbsent(db.query(detections[d].tools), repoUrl);
    forall c: nat | LatestReaches(db, detections, repoUrl, c) ensures c <= d {
    }
  }

  method SelectNearest(
    db: Db<seq<SessionEvent>>, detections: seq<AgentKind>, timestamps: seq<Nanos>, repoUrl: Option<string>,
    unavailable: bool)
    returns (pick: Option<CommitPick>, unavailable': bool)
    ensures unavailable' == (unavailable || (timestamps != [] && !db.Rows?))
    ensures pick.None? <==> timestamps == [] || !db.Rows? || NoneNearest(db.rows, detections, timestamps, repoUrl)
    ensures pick.Some? ==>
              var best := BestNearest(db.rows, detections, timestamps, repoUrl);
              && best.Some?
              && pick == Some(PickFromEvent(best.value.event, NearestFileTimestamp, Some(best.value.distance)))
  {
    unavailable' := unavailable;
    pick := None;
    if timestamps == [] {
      return;
    }
    match db
    case OpenFailed => unavailable' := true;
    case LockTimedOut => unavailable' := true;
    case QueryFailed => unavailable' := true;
    case Rows(rows) =>
      var best := ScanNearest(rows, detections, timestamps, repoUrl);
      BestNearestIsArgmin(rows, detections, timestamps, repoUrl);
      if best.Some? {
        pick := Some(PickFromEvent(best.value.event, NearestFileTimestamp, Some(best.value.distance)));
      }
  }

  // ---------- the whole choice ----------

  /** What the commit-metadata stage is given to choose from, besides the log and the newest file
      timestamps. */
  datatype CommitEvidence = CommitEvidence(
    detections: seq<AgentKind>,
    repoUrl: Option<string>,
    nearestDb: Db<seq<SessionEvent>>,
    latestDb: LatestDb,
    freshSessionId: string)

  function SynthesizedPick(kind: AgentKind, freshSessionId: string): CommitPick {
    CommitPick(
      freshSessionId,
      AgentId(if kind.tools == [] then kind.key else kind.tools[0], freshSessionId, "unknown"),
      SynthesizedSession, None, None)
  }

  function ExistingPick(sessions: Sessions, sessionId: string): CommitPick
    requires sessionId in sessions
  {
    CommitPick(sessionId, sessions[sessionId].agentId, SelectionTier.ExistingCommitSession, None, None)
  }

  /** No session in the log matches any detected agent. */
  ghost predicate NoExistingSession(sessions: Sessions, ev: CommitEvidence) {
    forall d: nat, s :: !ExistingMatch(sessions, ev.detections, d, s)
  }

  /** The nearest lookup found nothing, whether or not it could be read. */
  ghost predicate NothingNearest(ev: CommitEvidence, latest: seq<Nanos>) {
    latest != [] && ev.nearestDb.Rows? ==> NoneNearest(ev.nearestDb.rows, ev.detections, latest, ev.repoUrl)
  }

  ghost predicate NearestUnread(ev: CommitEvidence, latest: seq<Nanos>) {
    latest != [] && !ev.nearestDb.Rows?
  }

  /** A database access of this choice failed: of a lookup that was reached, because nothing was
      found before it. */
  ghost predicate AccessFailed(sessions: Sessions, ev: CommitEvidence, latest: seq<Nanos>) {
    && ev.detections != []
    && NoExistingSession(sessions, ev)
    && NothingNearest(ev, latest)
    && (NearestUnread(ev, latest) || LatestUnread(ev.latestDb, ev.detections, ev.repoUrl))
  }

  /** Absence of every real session was established: no match in the log, and both lookups were
      read and hold nothing compatible. */
  ghost predicate AbsenceEstablished(sessions: Sessions, ev: CommitEvidence, latest: seq<Nanos>) {
    && ev.detections != []
    && NoExistingSession(sessions, ev)
    && NothingNearest(ev, latest) && !NearestUnread(ev, latest)
    && AllLatestAbsent(ev.latestDb, ev.detections, ev.repoUrl)
  }

  /** What justifies the choice, tier by tier. `failed` says that an access failed before this
      choice was made. */
  ghost predicate PickJustified(
    atts: seq<FileAttestation>, sessions: Sessions, ev: CommitEvidence, latest: seq<Nanos>, failed: bool,
    pick: Option<CommitPick>)
  {
    match pick
    case None =>
      ev.detections != [] ==>
        && NoExistingSession(sessions, ev) && NothingNearest(ev, latest)
        && (forall d: nat :: !LatestFoundAt(ev.latestDb, ev.detections, ev.repoUrl, d))
        && (failed || AccessFailed(sessions, ev, latest))
    case Some(p) =>
      && ev.detections != []
      && match p.tier
         case ExistingCommitSession =>
           && p.sessionId in sessions && p == ExistingPick(sessions, p.sessionId)
           && exists d :: IsBestExisting(atts, sessions, ev.detections, Some((d, p.sessionId)))
         case NearestFileTimestamp =>
           && NoExistingSession(sessions, ev)
           && latest != [] && ev.nearestDb.Rows?
           && var best := BestNearest(ev.nearestDb.rows, ev.detections, latest, ev.repoUrl);
              best.Some? && p == PickFromEvent(best.value.event, NearestFileTimestamp, Some(best.value.distance))
         case LatestMatchingToolSession =>
           && NoExistingSession(sessions, ev) && NothingNearest(ev, latest)
           && IsLatestPick(ev.latestDb, ev.detections, ev.repoUrl, p)
         case SynthesizedSession =>
           && !failed && AbsenceEstablished(sessions, ev, latest)
           && p == SynthesizedPick(ev.detections[0], ev.freshSessionId)
  }

  /** Which tier is justified, in terms of the log and the evidence alone. */
  lemma TierMeaning(
    atts: seq<FileAttestation>, sessions: Sessions, ev: CommitEvidence, latest: seq<Nanos>, failed: bool,
    pick: Option<CommitPick>)
    requires PickJustified(atts, sessions, ev, latest, failed, pick) && ev.detections != []
    ensures (pick.Some? && pick.value.tier.ExistingCommitSession?) <==> !NoExistingSession(sessions, ev)
    ensures (pick.Some? && pick.value.tier.NearestFileTimestamp?) <==>
            NoExistingSession(sessions, ev) && !NothingNearest(ev, latest)
    ensures (pick.Some? && pick.value.tier.LatestMatchingToolSession?) <==>
            && NoExistingSession(sessions, ev) && NothingNearest(ev, latest)
            && exists d: nat :: LatestFoundAt(ev.latestDb, ev.detections, ev.repoUrl, d)
    ensures (pick.Some? && pick.value.tier.SynthesizedSession?) <==> !failed && AbsenceEstablished(sessions, ev, latest)
  {
    if latest != [] && ev.nearestDb.Rows? {
      BestNearestIsArgmin(ev.nearestDb.rows, ev.detections, latest, ev.repoUrl);
    }
    forall d: nat | LatestFoundAt(ev.latestDb, ev.detections, ev.repoUrl, d)
      ensures !AllLatestAbsent(ev.latestDb, ev.detections, ev.repoUrl)
    {
      LatestOutcomes(ev.latestDb, ev.detections, ev.repoUrl, d);
    }
    if AllLatestAbsent(ev.latestDb, ev.detections, ev.repoUrl) {
      AbsentIsRead(ev.latestDb, ev.detections, ev.repoUrl);
    }
    if pick.Some? && pick.value.tier.ExistingCommitSession? {
      var d :| IsBestExisting(atts, sessions, ev.detections, Some((d, pick.value.sessionId)));
      assert ExistingMatch(sessions, ev.detections, d, pick.value.sessionId);
    }
  }

  /** What established absence means for each place a session could have come from. */
  lemma AbsenceMeaning(sessions: Sessions, ev: CommitEvidence, latest: seq<Nanos>)
    requires AbsenceEstablished(sessions, ev, latest)
    ensures forall d: nat, s :: d < |ev.detections| && s in sessions ==>
              !MatchesTool(ev.detections[d], sessions[s].agentId.tool)
    ensures latest == [] ||
            (ev.nearestDb.Rows? &&
             forall e :: e in ev.nearestDb.rows ==> !NearestEvidence(e, ev.detections, latest, ev.repoUrl))
    ensures ev.latestDb.Opened? &&
            forall d :: 0 <= d < |ev.detections| ==> LatestAbsent(ev.latestDb.query(ev.detections[d].tools), ev.repoUrl)
    ensures !AccessFailed(sessions, ev, latest)
  {
    forall d: nat, s | d < |ev.detections| && s in sessions
      ensures !MatchesTool(ev.detections[d], sessions[s].agentId.tool)
    {
      assert !ExistingMatch(sessions, ev.detections, d, s);
    }
    AbsentIsRead(ev.latestDb, ev.detections, ev.repoUrl);
  }

  lemma AbsentIsRead(db: LatestDb, detections: seq<AgentKind>, repoUrl: Option<string>)
    requires AllLatestAbsent(db, detections, repoUrl)
    ensures !LatestUnread(db, detections, repoUrl)
  {
    forall d: nat | LatestReaches(db, detections, repoUrl, d) ensures db.query(detections[d].tools).Some? {
      assert LatestAbsent(db.query(detections[d].tools), repoUrl);
    }
  }

  /** The pick names an event's session and its agent. */
  ghost predicate NamesEvent(p: CommitPick, e: SessionEvent) {
    p.sessionId == e.sessionId && DescribesEvent(p.agentId, e) && p.event == Some(e)
  }

  /** Whom a justified pick names, field by field. */
  ghost predicate NamesWhom(sessions: Sessions, ev: CommitEvidence, latest: seq<Nanos>, p: CommitPick)
  {
    match p.tier
    case ExistingCommitSession =>
      && p.sessionId in sessions && p.agentId == sessions[p.sessionId].agentId
      && p.event.None? && p.distance.None?
    case NearestFileTimestamp =>
      && ev.nearestDb.Rows? && p.distance.Some?
      && exists e :: IsBestNearest(e, ev.nearestDb.rows, ev.detections, latest, ev.repoUrl) && NamesEvent(p, e) &&
                     IsEventGap(p.distance.value, e, latest)
    case LatestMatchingToolSession =>
      && p.distance.None?
      && exists d: nat, e :: LatestFoundAt(ev.latestDb, ev.detections, ev.repoUrl, d) && NamesEvent(p, e) &&
                             IsBestLatest(e, ev.latestDb.query(ev.detections[d].tools).value, ev.repoUrl)
    case SynthesizedSession =>
      && ev.detections != []
      && p.sessionId == ev.freshSessionId && p.agentId.id == ev.freshSessionId && p.agentId.model == "unknown"
      && p.agentId.tool == (var kind := ev.detections[0]; if kind.tools == [] then kind.key else kind.tools[0])
      && p.event.None? && p.distance.None?
  }

  lemma PickNamesWhom(
    atts: seq<FileAttestation>, sessions: Sessions, ev: CommitEvidence, latest: seq<Nanos>, failed: bool,
    p: CommitPick)
    requires PickJustified(atts, sessions, ev, latest, failed, Some(p))
    ensures NamesWhom(sessions, ev, latest, p)
  {
    if p.tier.NearestFileTimestamp? {
      BestNearestIsArgmin(ev.nearestDb.rows, ev.detections, latest, ev.repoUrl);
      var best := BestNearest(ev.nearestDb.rows, ev.detections, latest, ev.repoUrl).value;
      assert NamesEvent(p, best.event);
    } else if p.tier.LatestMatchingToolSession? {
      var d: nat :|
        && LatestFoundAt(ev.latestDb, ev.detections, ev.repoUrl, d)
        && var best := BestLatest(ev.latestDb.query(ev.detections[d].tools).value, ev.repoUrl);
           best.Some? && p == PickFromEvent(best.value.event, LatestMatchingToolSession, None);
      var rows := ev.latestDb.query(ev.detections[d].tools).value;
      BestLatestIsArgmin(rows, ev.repoUrl);
      assert NamesEvent(p, BestLatest(rows, ev.repoUrl).value.event);
    }
  }

  /** The log and the evidence leave no freedom: only one choice is justified. */
  lemma JustifiedPickUnique(
    atts: seq<FileAttestation>, sessions: Sessions, ev: CommitEvidence, latest: seq<Nanos>, failed: bool,
    a: Option<CommitPick>, b: Option<CommitPick>)
    requires PickJustified(atts, sessions, ev, latest, failed, a)
    requires PickJustified(atts, sessions, ev, latest, failed, b)
    ensures a == b
  {
    if ev.detections != [] {
      TierMeaning(atts, sessions, ev, latest, failed, a);
      TierMeaning(atts, sessions, ev, latest, failed, b);
      if a.Some? && b.Some? {
        SameTierUnique(atts, sessions, ev, latest, failed, a.value, b.value);
      }
    }
  }

  lemma SameTierUnique(
    atts: seq<FileAttestation>, sessions: Sessions, ev: CommitEvidence, latest: seq<Nanos>, failed: bool,
    a: CommitPick, b: CommitPick)
    requires PickJustified(atts, sessions, ev, latest, failed, Some(a))
    requires PickJustified(atts, sessions, ev, latest, failed, Some(b))
    requires a.tier == b.tier
    ensures a == b
  {
    if a.tier.ExistingCommitSession? {
      var c :| IsBestExisting(atts, sessions, ev.detections, Some((c, a.sessionId)));
      var d :| IsBestExisting(atts, sessions, ev.detections, Some((d, b.sessionId)));
      BestExistingUnique(atts, sessions, ev.detections, Some((c, a.sessionId)), Some((d, b.sessionId)));
    } else if a.tier.LatestMatchingToolSession? {
      var d: nat :| LatestFoundAt(ev.latestDb, ev.detections, ev.repoUrl, d);
      LatestOutcomes(ev.latestDb, ev.detections, ev.repoUrl, d);
    }
  }

  /** The choice is the justified one, and afterwards an access counts as failed exactly if one
      had failed before or one of this choice did. */
  method SelectCommitSession(
    atts: seq<FileAttestation>, sessions: Sessions, ev: CommitEvidence, latest: seq<Nanos>, unavailable: bool)
    returns (pick: Option<CommitPick>, unavailable': bool)
    ensures PickJustified(atts, sessions, ev, latest, unavailable, pick)
    ensures unavailable' <==> unavailable || AccessFailed(sessions, ev, latest)
  {
    unavailable' := unavailable;
    pick := None;
    if ev.detections == [] {
      return;
    }
    var existing := SelectExisting(atts, sessions, ev.detections);
    if existing.Some? {
      var (d, s) := existing.value;
      pick := Some(ExistingPick(sessions, s));
      assert ExistingMatch(sessions, ev.detections, d, s);
      return;
    }
    assert NoExistingSession(sessions, ev);
    pick, unavailable' := SelectNearest(ev.nearestDb, ev.detections, latest, ev.repoUrl, unavailable');
    if pick.Some? {
      return;
    }
    assert NothingNearest(ev, latest);
    pick, unavailable' := SelectLatest(ev.latestDb, ev.detections, ev.repoUrl, unavailable');
    if pick.Some? {
      return;
    }
    NothingFound(ev.latestDb, ev.detections, ev.repoUrl);
    if unavailable' {
      return;
    }
    pick := Some(SynthesizedPick(ev.detections[0], ev.freshSessionId));
  }

  lemma NothingFound(db: LatestDb, detections: seq<AgentKind>, repoUrl: Option<string>)
    requires LatestUnread(db, detections, repoUrl) || AllLatestAbsent(db, detections, repoUrl)
    ensures forall d: nat :: !LatestFoundAt(db, detections, repoUrl, d)
  {
    forall d: nat | LatestFoundAt(db, detections, repoUrl, d) ensures false {
      LatestOutcomes(db, detections, repoUrl, d);
    }
  }
}
