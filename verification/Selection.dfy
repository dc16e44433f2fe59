/** Choosing the evidence for unknown lines: the Bash and session-event selectors of
    `src/authorship/attribution_recovery.rs` and the call-window distance of
    `src/daemon/bash_history_db.rs`.

    A comparison chain `a.cmp(b).then_with(...)` is modelled as the lexicographic order on
    a sequence of integers, one per link; a reversed link is negated. */
module Selection {
  import opened Basics
  import opened AuthorshipLogs
  import opened LineRanges

  const U128_MAX: int := 0xFFFF_FFFF_FFFF_FFFF_FFFF_FFFF_FFFF_FFFF
  type Nanos = x: int | 0 <= x <= 0xFFFF_FFFF_FFFF_FFFF_FFFF_FFFF_FFFF_FFFF

  const BASH_RECOVERY_WINDOW_NS: Nanos := 3_000_000_000
  const BASH_RECOVERY_COARSE_TIMESTAMP_NS: Nanos := 1_000_000_000
  const SESSION_EVENT_RECOVERY_WINDOW_NS: Nanos := 3_000_000_000
  const NS_PER_SECOND: Nanos := 1_000_000_000

  function SaturatingAdd(a: Nanos, b: Nanos): Nanos {
    if a + b > U128_MAX then U128_MAX else a + b
  }

  function SaturatingSub(a: Nanos, b: Nanos): Nanos {
    if a < b then 0 else a - b
  }

  // ---------- lexicographic minima ----------

  predicate LexLess(a: seq<int>, b: seq<int>) {
    if b == [] then false
    else if a == [] then true
    else if a[0] != b[0] then a[0] < b[0]
    else LexLess(a[1..], b[1..])
  }

  lemma {:induction false} LexTotal(a: seq<int>, b: seq<int>)
    ensures LexLess(a, b) || LexLess(b, a) || a == b
    ensures !(LexLess(a, b) && LexLess(b, a))
    ensures a == b ==> !LexLess(a, b)
  {
    if a != [] && b != [] {
      LexTotal(a[1..], b[1..]);
      if a[0] == b[0] && a[1..] == b[1..] {
        assert a == [a[0]] + a[1..] == b;
      }
    }
  }

  lemma {:induction false} LexTransitive(a: seq<int>, b: seq<int>, c: seq<int>)
    requires !LexLess(b, a) && !LexLess(c, b)
    ensures !LexLess(c, a)
  {
    if a != [] && b != [] && c != [] && a[0] == b[0] == c[0] {
      LexTransitive(a[1..], b[1..], c[1..]);
    }
  }

  /** `Iterator::min_by`: the first element that no later one beats. */
  function MinBy<T>(s: seq<T>, key: T -> seq<int>): Option<T> {
    if s == [] then None
    else
      var x := s[|s| - 1];
      match MinBy(s[..|s| - 1], key)
      case None => Some(x)
      case Some(best) => if LexLess(key(x), key(best)) then Some(x) else Some(best)
  }

  lemma {:induction false} MinByMember<T>(s: seq<T>, key: T -> seq<int>)
    ensures MinBy(s, key).None? <==> s == []
    ensures s != [] ==> MinBy(s, key).value in s
  {
    if s != [] {
      MinByMember(s[..|s| - 1], key);
    }
  }

  lemma {:induction false} MinByLower<T>(s: seq<T>, key: T -> seq<int>, i: nat)
    requires i < |s|
    ensures MinBy(s, key).Some? && !LexLess(key(s[i]), key(MinBy(s, key).value))
  {
    var n := |s| - 1;
    var front, x := MinBy(s[..n], key), s[n];
    LexTotal(key(x), key(x));
    if front.Some? {
      LexTotal(key(x), key(front.value));
    }
    if i < n {
      assert s[..n][i] == s[i];
      MinByLower(s[..n], key, i);
      if LexLess(key(x), key(front.value)) {
        LexTransitive(key(x), key(front.value), key(s[i]));
      }
    }
  }

  /** The minimum exists exactly for a non-empty list, is a member, and nothing is below it. */
  lemma MinByIsMinimum<T>(s: seq<T>, key: T -> seq<int>)
    ensures MinBy(s, key).None? <==> s == []
    ensures s != [] ==> MinBy(s, key).value in s
    ensures s != [] ==> forall x :: x in s ==> !LexLess(key(x), key(MinBy(s, key).value))
  {
    MinByMember(s, key);
    forall x | x in s ensures MinBy(s, key).Some? && !LexLess(key(x), key(MinBy(s, key).value)) {
      var i :| 0 <= i < |s| && s[i] == x;
      MinByLower(s, key, i);
    }
  }

  /** With distinct keys the minimum depends only on the elements, not on their order. */
  lemma MinByOrderIndependent<T>(s: seq<T>, t: seq<T>, key: T -> seq<int>)
    requires forall x :: x in s <==> x in t
    requires forall x, y :: x in s && y in s && key(x) == key(y) ==> x == y
    ensures MinBy(s, key) == MinBy(t, key)
  {
    MinByIsMinimum(s, key);
    MinByIsMinimum(t, key);
    assert s == [] <==> t == [] by {
      assert s != [] ==> s[0] in t;
      assert t != [] ==> t[0] in s;
    }
    if s != [] {
      var a, b := MinBy(s, key).value, MinBy(t, key).value;
      LexTotal(key(a), key(b));
    }
  }

  function MinSome(distances: seq<Option<Nanos>>): Option<Nanos> {
    if distances == [] then None
    else
      var rest := MinSome(distances[..|distances| - 1]);
      match distances[|distances| - 1]
      case None => rest
      case Some(d) => if rest.Some? && rest.value <= d then rest else Some(d)
  }

  lemma {:induction false} MinSomeLower(distances: seq<Option<Nanos>>, i: nat)
    requires i < |distances| && distances[i].Some?
    ensures MinSome(distances).Some? && MinSome(distances).value <= distances[i].value
  {
    var n := |distances| - 1;
    if i < n {
      assert distances[..n][i] == distances[i];
      MinSomeLower(distances[..n], i);
    }
  }

  lemma {:induction false} MinSomeWitness(distances: seq<Option<Nanos>>) returns (i: nat)
    requires MinSome(distances).Some?
    ensures i < |distances| && distances[i] == MinSome(distances)
  {
    var n := |distances| - 1;
    if MinSome(distances) == distances[n] {
      i := n;
    } else {
      i := MinSomeWitness(distances[..n]);
    }
  }

  // ---------- Bash calls ----------

  datatype BashCall = BashCall(
    id: int,
    repoWorkDir: Option<string>,
    agentId: AgentId,
    startNs: Nanos,
    endNs: Option<Nanos>,
    command: Option<string>,
    metadata: map<string, string>)

  function DistanceToCallWindow(t: Nanos, call: BashCall): Nanos {
    var start := call.startNs;
    var end := if call.endNs.Some? then call.endNs.value else start;
    if t < start then SaturatingSub(start, t) else if t > end then SaturatingSub(t, end) else 0
  }

  function WindowEnd(call: BashCall): Nanos {
    if call.endNs.Some? then call.endNs.value else SaturatingAdd(call.startNs, BASH_RECOVERY_WINDOW_NS)
  }

  function RecoveryDistance(t: Nanos, call: BashCall): Option<Nanos> {
    if t > WindowEnd(call) then None
    else if t < call.startNs &&
            (SaturatingSub(call.startNs, t) >= BASH_RECOVERY_COARSE_TIMESTAMP_NS ||
             t % BASH_RECOVERY_COARSE_TIMESTAMP_NS != 0) then None
    else Some(DistanceToCallWindow(t, call))
  }

  /** A timestamp that supports a call: from its start to its end, or to 3 s after the start of a
      call without an end, or a whole second less than 1 s early. */
  predicate Supports(t: Nanos, call: BashCall) {
    && (if call.endNs.Some? then t <= call.endNs.value else t <= call.startNs + 3_000_000_000)
    && (call.startNs <= t || (call.startNs - 1_000_000_000 < t && t % 1_000_000_000 == 0))
  }

  /** A distance exists exactly for supporting timestamps, and then never exceeds the window:
      the caller's own window check can never reject a pick. */
  lemma RecoveryDistanceSupports(t: Nanos, call: BashCall)
    ensures RecoveryDistance(t, call).Some? <==> Supports(t, call)
    ensures RecoveryDistance(t, call).Some? ==> RecoveryDistance(t, call).value <= BASH_RECOVERY_WINDOW_NS
  {
  }

  datatype BashTier = ExistingCommitSession | SameWorktree

  datatype BashContext = BashContext(
    existingSessions: set<string>,
    workDir: string,
    sessionIdOf: (string, string) -> string,
    timestamps: seq<Nanos>)

  function BashCandidateTier(call: BashCall, ctx: BashContext): Option<BashTier> {
    if call.agentId.tool == "zcode" &&
       (call.endNs.None? || "tool_outcome" !in call.metadata || call.metadata["tool_outcome"] != "succeeded") then None
    else if call.repoWorkDir != Some(ctx.workDir) then None
    else if ctx.sessionIdOf(call.agentId.id, call.agentId.tool) in ctx.existingSessions then Some(ExistingCommitSession)
    else Some(SameWorktree)
  }

  function RecoveryDistances(call: BashCall, timestamps: seq<Nanos>): seq<Option<Nanos>> {
    seq(|timestamps|, i requires 0 <= i < |timestamps| => RecoveryDistance(timestamps[i], call))
  }

  function CallDistance(call: BashCall, timestamps: seq<Nanos>): Option<Nanos> {
    MinSome(RecoveryDistances(call, timestamps))
  }

  datatype BashSelection = BashSelection(call: BashCall, distance: Nanos, tier: BashTier)

  function EligibleBash(call: BashCall, ctx: BashContext): Option<BashSelection> {
    if call.agentId.tool == "zcode" then None
    else
      var tier := BashCandidateTier(call, ctx);
      var distance := CallDistance(call, ctx.timestamps);
      if tier.None? || distance.None? then None
      else Some(BashSelection(call, distance.value, tier.value))
  }

  function BashKey(s: BashSelection): seq<int> {
    [if s.tier.ExistingCommitSession? then 0 else 1,
     s.distance,
     if s.call.endNs.Some? then 0 else 1,
     if s.call.command.Some? then 0 else 1,
     -s.call.id]
  }

  /** What the chain prefers, link by link: a session already in the commit, then the nearer
      call, then a finished one, then one with a command, then the later id. */
  predicate BashBetter(a: BashSelection, b: BashSelection) {
    if a.tier != b.tier then a.tier.ExistingCommitSession?
    else if a.distance != b.distance then a.distance < b.distance
    else if a.call.endNs.Some? != b.call.endNs.Some? then a.call.endNs.Some?
    else if a.call.command.Some? != b.call.command.Some? then a.call.command.Some?
    else a.call.id > b.call.id
  }

  lemma BashKeyOrders(a: BashSelection, b: BashSelection)
    ensures LexLess(BashKey(a), BashKey(b)) <==> BashBetter(a, b)
  {
    var k, m := BashKey(a), BashKey(b);
    LexStep(k, m, 0);
    LexStep(k, m, 1);
    LexStep(k, m, 2);
    LexStep(k, m, 3);
    LexStep(k, m, 4);
  }

  lemma LexStep(a: seq<int>, b: seq<int>, i: nat)
    requires i < |a| && i < |b|
    ensures LexLess(a[i..], b[i..]) <==> if a[i] != b[i] then a[i] < b[i] else LexLess(a[i + 1..], b[i + 1..])
    ensures a[0..] == a && b[0..] == b
    ensures i + 1 == |a| ==> a[i + 1..] == []
    ensures i + 1 == |b| ==> b[i + 1..] == []
  {
  }

  /** `filter_map` with an arbitrary partial function. */
  function FilterMap<A, B>(s: seq<A>, f: A -> Option<B>): seq<B> {
    if s == [] then []
    else
      var front := FilterMap(s[..|s| - 1], f);
      match f(s[|s| - 1])
      case None => front
      case Some(b) => front + [b]
  }

  lemma {:induction false} FilterMapMeaning<A, B>(s: seq<A>, f: A -> Option<B>, b: B)
    ensures b in FilterMap(s, f) <==> exists a :: a in s && f(a) == Some(b)
  {
    if s != [] {
      var front, last := s[..|s| - 1], s[|s| - 1];
      FilterMapMeaning(front, f, b);
      assert s == front + [last];
      assert forall a :: a in s <==> a in front || a == last;
    }
  }

  lemma {:induction false} FilterMapEmpty<A, B>(s: seq<A>, f: A -> Option<B>)
    ensures FilterMap(s, f) == [] <==> forall a :: a in s ==> f(a).None?
  {
    if s != [] {
      var front, last := s[..|s| - 1], s[|s| - 1];
      FilterMapEmpty(front, f);
      assert s == front + [last];
    }
  }

  function SelectBestBash(candidates: seq<BashCall>, ctx: BashContext): Option<BashSelection> {
    MinBy(FilterMap(candidates, (c: BashCall) => EligibleBash(c, ctx)), BashKey)
  }

  /** The facts a Bash pick rests on, stated without the selector. */
  ghost predicate BashEvidence(call: BashCall, ctx: BashContext) {
    && call.agentId.tool != "zcode"
    && call.repoWorkDir == Some(ctx.workDir)
    && exists i :: 0 <= i < |ctx.timestamps| && Supports(ctx.timestamps[i], call)
  }

  lemma CallDistanceMeaning(call: BashCall, timestamps: seq<Nanos>)
    ensures var d := CallDistance(call, timestamps);
            && (d.Some? <==> exists i :: 0 <= i < |timestamps| && Supports(timestamps[i], call))
            && (d.Some? ==> d.value <= BASH_RECOVERY_WINDOW_NS)
            && (d.Some? ==> exists i :: 0 <= i < |timestamps| && RecoveryDistance(timestamps[i], call) == d)
            && (forall i :: 0 <= i < |timestamps| && Supports(timestamps[i], call) ==>
                  && d.Some? && RecoveryDistance(timestamps[i], call).Some?
                  && d.value <= RecoveryDistance(timestamps[i], call).value)
  {
    var ds, d := RecoveryDistances(call, timestamps), CallDistance(call, timestamps);
    forall i | 0 <= i < |timestamps| && Supports(timestamps[i], call)
      ensures d.Some? && RecoveryDistance(timestamps[i], call).Some?
      ensures d.value <= RecoveryDistance(timestamps[i], call).value
    {
      RecoveryDistanceSupports(timestamps[i], call);
      MinSomeLower(ds, i);
    }
    if d.Some? {
      var i := MinSomeWitness(ds);
      RecoveryDistanceSupports(timestamps[i], call);
    }
  }

  /** The call belongs to a session that the commit already has. */
  predicate InCommit(call: BashCall, ctx: BashContext) {
    ctx.sessionIdOf(call.agentId.id, call.agentId.tool) in ctx.existingSessions
  }

  lemma EligibleBashMeaning(call: BashCall, ctx: BashContext)
    ensures EligibleBash(call, ctx).Some? <==> BashEvidence(call, ctx)
    ensures EligibleBash(call, ctx).Some? ==>
              var s := EligibleBash(call, ctx).value;
              && s.call == call && s.distance <= BASH_RECOVERY_WINDOW_NS
              && CallDistance(call, ctx.timestamps) == Some(s.distance)
              && (s.tier.ExistingCommitSession? <==> InCommit(call, ctx))
  {
    CallDistanceMeaning(call, ctx.timestamps);
  }

  /** Nothing is picked exactly when no call has evidence; a pick has evidence and distance
      within the window, and no call with evidence is better. */
  lemma SelectBestBashIsArgmin(candidates: seq<BashCall>, ctx: BashContext)
    ensures var pick := SelectBestBash(candidates, ctx);
            && (pick.None? <==> forall c :: c in candidates ==> !BashEvidence(c, ctx))
            && (pick.Some? ==>
                  && pick.value.call in candidates
                  && EligibleBash(pick.value.call, ctx) == pick
                  && BashEvidence(pick.value.call, ctx)
                  && pick.value.distance <= BASH_RECOVERY_WINDOW_NS
                  && forall c :: c in candidates && EligibleBash(c, ctx).Some? ==>
                       !BashBetter(EligibleBash(c, ctx).value, pick.value))
  {
    var f := (c: BashCall) => EligibleBash(c, ctx);
    var eligible := FilterMap(candidates, f);
    MinByIsMinimum(eligible, BashKey);
    FilterMapEmpty(candidates, f);
    forall c: BashCall ensures EligibleBash(c, ctx).Some? <==> BashEvidence(c, ctx) {
      EligibleBashMeaning(c, ctx);
    }
    if eligible != [] {
      var pick := SelectBestBash(candidates, ctx).value;
      FilterMapMeaning(candidates, f, pick);
      var a :| a in candidates && f(a) == Some(pick);
      EligibleBashMeaning(a, ctx);
      forall c | c in candidates && EligibleBash(c, ctx).Some?
        ensures !BashBetter(EligibleBash(c, ctx).value, pick)
      {
        BashKeyOrders(EligibleBash(c, ctx).value, pick);
        FilterMapMeaning(candidates, f, EligibleBash(c, ctx).value);
        assert f(c) == Some(EligibleBash(c, ctx).value);
      }
    }
  }

  /** With distinct ids the Bash pick does not depend on the order of the candidates. */
  lemma SelectBestBashOrderIndependent(a: seq<BashCall>, b: seq<BashCall>, ctx: BashContext)
    requires multiset(a) == multiset(b)
    requires forall c, d :: c in a && d in a && c.id == d.id ==> c == d
    ensures SelectBestBash(a, ctx) == SelectBestBash(b, ctx)
  {
    var f := (c: BashCall) => EligibleBash(c, ctx);
    var s, t := FilterMap(a, f), FilterMap(b, f);
    assert forall c :: c in a <==> c in multiset(a);
    assert forall c :: c in b <==> c in multiset(b);
    forall x ensures x in s <==> x in t {
      FilterMapMeaning(a, f, x);
      FilterMapMeaning(b, f, x);
    }
    forall x, y | x in s && y in s && BashKey(x) == BashKey(y) ensures x == y {
      FilterMapMeaning(a, f, x);
      FilterMapMeaning(a, f, y);
      var c :| c in a && f(c) == Some(x);
      var d :| d in a && f(d) == Some(y);
      assert BashKey(x)[4] == BashKey(y)[4];
      EligibleBashMeaning(c, ctx);
      EligibleBashMeaning(d, ctx);
    }
    MinByOrderIndependent(s, t, BashKey);
  }

  // ---------- session events ----------

  datatype SessionEvent = SessionEvent(
    rowId: int,
    eventTs: U32,
    sessionId: string,
    tool: string,
    model: Option<string>,
    externalSessionId: string,
    externalToolUseId: Option<string>,
    repoUrl: Option<string>)

  function EventModel(e: SessionEvent): string {
    if e.model.Some? && e.model.value != "" then e.model.value else "unknown"
  }

  function EventAgent(e: SessionEvent): AgentId {
    AgentId(e.tool, e.externalSessionId, EventModel(e))
  }

  function EventStart(eventTs: U32): Nanos {
    eventTs * NS_PER_SECOND
  }

  function DistanceToEventSecond(t: Nanos, eventTs: U32): Nanos {
    var start := EventStart(eventTs);
    var end := SaturatingAdd(start, NS_PER_SECOND - 1);
    if t < start then start - t else SaturatingSub(t, end)
  }

  function AbsDiff(a: int, b: int): int {
    if a < b then b - a else a - b
  }

  /** The distance is the true minimum over every instant of the event's second. */
  lemma EventDistanceIsMinimum(t: Nanos, eventTs: U32)
    ensures var start, d := EventStart(eventTs), DistanceToEventSecond(t, eventTs);
            && (forall u :: start <= u < start + NS_PER_SECOND ==> d <= AbsDiff(t, u))
            && (exists u :: start <= u < start + NS_PER_SECOND && d == AbsDiff(t, u))
  {
    var start, d := EventStart(eventTs), DistanceToEventSecond(t, eventTs);
    var u := if t < start then start else if t >= start + NS_PER_SECOND then start + NS_PER_SECOND - 1 else t;
    assert d == AbsDiff(t, u);
  }

  function EventDistances(e: SessionEvent, timestamps: seq<Nanos>): seq<Option<Nanos>> {
    seq(|timestamps|, i requires 0 <= i < |timestamps| => Some(DistanceToEventSecond(timestamps[i], e.eventTs)))
  }

  function EventDistance(e: SessionEvent, timestamps: seq<Nanos>): Option<Nanos> {
    MinSome(EventDistances(e, timestamps))
  }

  lemma EventDistanceMeaning(e: SessionEvent, timestamps: seq<Nanos>)
    ensures var d := EventDistance(e, timestamps);
            && (d.Some? <==> timestamps != [])
            && (d.Some? ==>
                  exists i :: 0 <= i < |timestamps| && d.value == DistanceToEventSecond(timestamps[i], e.eventTs))
            && (forall i :: 0 <= i < |timestamps| ==>
                  d.Some? && d.value <= DistanceToEventSecond(timestamps[i], e.eventTs))
  {
    var ds, d := EventDistances(e, timestamps), EventDistance(e, timestamps);
    forall i | 0 <= i < |timestamps| ensures d.Some? && d.value <= DistanceToEventSecond(timestamps[i], e.eventTs) {
      MinSomeLower(ds, i);
    }
    if d.Some? {
      var i := MinSomeWitness(ds);
      assert d.value == DistanceToEventSecond(timestamps[i], e.eventTs);
    }
    assert timestamps != [] ==> DistanceToEventSecond(timestamps[0], e.eventTs) >= 0;
  }

  datatype EventSelection = EventSelection(event: SessionEvent, distance: Nanos)

  function EligibleEvent(e: SessionEvent, timestamps: seq<Nanos>, repoUrl: string): Option<EventSelection> {
    if e.tool == "zcode" then None
    else
      var distance := EventDistance(e, timestamps);
      if distance.None? || distance.value > SESSION_EVENT_RECOVERY_WINDOW_NS then None
      else if e.repoUrl != Some(repoUrl) then None
      else Some(EventSelection(e, distance.value))
  }

  /** One tier only, so the tier link of the comparison chain is constant. */
  function EventKey(s: EventSelection): seq<int> {
    [0, s.distance, -s.event.rowId]
  }

  /** The nearer event, then the later row. */
  predicate EventBetter(a: EventSelection, b: EventSelection) {
    if a.distance != b.distance then a.distance < b.distance else a.event.rowId > b.event.rowId
  }

  lemma EventKeyOrders(a: EventSelection, b: EventSelection)
    ensures LexLess(EventKey(a), EventKey(b)) <==> EventBetter(a, b)
  {
    var k, m := EventKey(a), EventKey(b);
    LexStep(k, m, 0);
    LexStep(k, m, 1);
    LexStep(k, m, 2);
  }

  function SelectBestEvent(candidates: seq<SessionEvent>, timestamps: seq<Nanos>, repoUrl: string)
    : Option<EventSelection>
  {
    MinBy(FilterMap(candidates, (e: SessionEvent) => EligibleEvent(e, timestamps, repoUrl)), EventKey)
  }

  /** `u` is an instant of the event's second. */
  ghost predicate DuringEvent(e: SessionEvent, u: int) {
    e.eventTs * 1_000_000_000 <= u < (e.eventTs + 1) * 1_000_000_000
  }

  /** Some timestamp lies within 3 s of the event's second. */
  ghost predicate NearEvent(e: SessionEvent, timestamps: seq<Nanos>) {
    exists i, u :: 0 <= i < |timestamps| && DuringEvent(e, u) && AbsDiff(timestamps[i], u) <= 3_000_000_000
  }

  ghost predicate EventEvidence(e: SessionEvent, timestamps: seq<Nanos>, repoUrl: string) {
    && e.tool != "zcode"
    && e.repoUrl == Some(repoUrl)
    && NearEvent(e, timestamps)
  }

  lemma EligibleEventMeaning(e: SessionEvent, timestamps: seq<Nanos>, repoUrl: string)
    ensures EligibleEvent(e, timestamps, repoUrl).Some? <==> EventEvidence(e, timestamps, repoUrl)
    ensures EligibleEvent(e, timestamps, repoUrl).Some? ==>
              var s := EligibleEvent(e, timestamps, repoUrl).value;
              s.event == e && EventDistance(e, timestamps) == Some(s.distance)
  {
    WithinEventWindow(e, timestamps);
  }

  lemma WithinEventWindow(e: SessionEvent, timestamps: seq<Nanos>)
    ensures var d := EventDistance(e, timestamps);
            d.Some? && d.value <= SESSION_EVENT_RECOVERY_WINDOW_NS <==> NearEvent(e, timestamps)
  {
    EventDistanceMeaning(e, timestamps);
    var d := EventDistance(e, timestamps);
    if d.Some? && d.value <= SESSION_EVENT_RECOVERY_WINDOW_NS {
      var i :| 0 <= i < |timestamps| && d.value == DistanceToEventSecond(timestamps[i], e.eventTs);
      EventDistanceIsMinimum(timestamps[i], e.eventTs);
      var start := EventStart(e.eventTs);
      var u :| start <= u < start + NS_PER_SECOND && d.value == AbsDiff(timestamps[i], u);
      assert DuringEvent(e, u);
    }
    if NearEvent(e, timestamps) {
      var i, u :| 0 <= i < |timestamps| && DuringEvent(e, u) && AbsDiff(timestamps[i], u) <= 3_000_000_000;
      EventDistanceIsMinimum(timestamps[i], e.eventTs);
    }
  }

  lemma SelectBestEventIsArgmin(candidates: seq<SessionEvent>, timestamps: seq<Nanos>, repoUrl: string)
    ensures var pick := SelectBestEvent(candidates, timestamps, repoUrl);
            && (pick.None? <==> forall e :: e in candidates ==> !EventEvidence(e, timestamps, repoUrl))
            && (pick.Some? ==>
                  && pick.value.event in candidates
                  && EligibleEvent(pick.value.event, timestamps, repoUrl) == pick
                  && EventEvidence(pick.value.event, timestamps, repoUrl)
                  && forall e :: e in candidates && EligibleEvent(e, timestamps, repoUrl).Some? ==>
                       !EventBetter(EligibleEvent(e, timestamps, repoUrl).value, pick.value))
  {
    var f := (e: SessionEvent) => EligibleEvent(e, timestamps, repoUrl);
    var eligible := FilterMap(candidates, f);
    MinByIsMinimum(eligible, EventKey);
    FilterMapEmpty(candidates, f);
    forall e: SessionEvent
      ensures EligibleEvent(e, timestamps, repoUrl).Some? <==> EventEvidence(e, timestamps, repoUrl)
    {
      EligibleEventMeaning(e, timestamps, repoUrl);
    }
    if eligible != [] {
      var pick := SelectBestEvent(candidates, timestamps, repoUrl).value;
      FilterMapMeaning(candidates, f, pick);
      var a :| a in candidates && f(a) == Some(pick);
      EligibleEventMeaning(a, timestamps, repoUrl);
      forall e | e in candidates && EligibleEvent(e, timestamps, repoUrl).Some?
        ensures !EventBetter(EligibleEvent(e, timestamps, repoUrl).value, pick)
      {
        EventKeyOrders(EligibleEvent(e, timestamps, repoUrl).value, pick);
        FilterMapMeaning(candidates, f, EligibleEvent(e, timestamps, repoUrl).value);
        assert f(e) == Some(EligibleEvent(e, timestamps, repoUrl).value);
      }
    }
  }

  lemma SelectBestEventOrderIndependent(
    a: seq<SessionEvent>, b: seq<SessionEvent>, timestamps: seq<Nanos>, repoUrl: string)
    requires multiset(a) == multiset(b)
    requires forall c, d :: c in a && d in a && c.rowId == d.rowId ==> c == d
    ensures SelectBestEvent(a, timestamps, repoUrl) == SelectBestEvent(b, timestamps, repoUrl)
  {
    var f := (e: SessionEvent) => EligibleEvent(e, timestamps, repoUrl);
    var s, t := FilterMap(a, f), FilterMap(b, f);
    assert forall c :: c in a <==> c in multiset(a);
    assert forall c :: c in b <==> c in multiset(b);
    forall x ensures x in s <==> x in t {
      FilterMapMeaning(a, f, x);
      FilterMapMeaning(b, f, x);
    }
    forall x, y | x in s && y in s && EventKey(x) == EventKey(y) ensures x == y {
      FilterMapMeaning(a, f, x);
      FilterMapMeaning(a, f, y);
      var c :| c in a && f(c) == Some(x);
      var d :| d in a && f(d) == Some(y);
      assert EventKey(x)[2] == EventKey(y)[2];
      EligibleEventMeaning(c, timestamps, repoUrl);
      EligibleEventMeaning(d, timestamps, repoUrl);
    }
    MinByOrderIndependent(s, t, EventKey);
  }
}
