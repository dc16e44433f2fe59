/** Double-checked token refresh (`try_load_auth_token`, `src/api/client.rs`, with the expiry
    tests of `src/auth/types.rs`), as interleaved steps of any number of threads.

    A run is a list of steps in any order; a step that is not enabled does nothing. */
module TokenRefresh {
  import opened Basics

  const BUFFER_SECS := 300

  type Tid = nat

  datatype Credentials = Credentials(
    accessToken: string, refreshToken: string, accessExpires: int, refreshExpires: int)
  {
    predicate AccessExpired(now: int, buffer: int) {
      accessExpires <= now + buffer
    }

    predicate RefreshExpired(now: int) {
      refreshExpires <= now
    }
  }

  datatype Thread =
    | Started
    | LoadedOnce(creds: Credentials)
    | RefreshUsable(creds: Credentials)
    | WaitingForLock
    | Locked
    | LoadedAgain(creds: Credentials)
    | Refreshing(creds: Credentials)
    | Storing(renewed: Credentials)
    | Returned(token: Option<string>)
  {
    predicate HasLock() {
      Locked? || LoadedAgain? || Refreshing? || Storing?
    }

    predicate InFlight() {
      Refreshing? || Storing?
    }
  }

  /** A refresh request as it was issued. */
  datatype Request = Request(tid: Tid, creds: Credentials, at: int, stored: Option<Credentials>, holder: Option<Tid>)

  datatype State = State(
    now: int,
    store: Option<Credentials>,
    lock: Option<Tid>,
    poisoned: bool,
    threads: map<Tid, Thread>,
    requests: seq<Request>,
    failed: nat,     // requests that ended without stored credentials
    stored: nat)     // requests whose credentials were stored

  datatype Step =
    | Tick(seconds: nat)
    | LoadFirst(tid: Tid, readable: bool)
    | CheckRefresh(tid: Tid)
    | CheckFast(tid: Tid)
    | Acquire(tid: Tid)
    | LoadSecond(tid: Tid, readable: bool)
    | CheckLocked(tid: Tid)
    | RefreshAnswers(tid: Tid, renewed: Option<Credentials>)
    | Store(tid: Tid, succeeds: bool)
    | Panic(tid: Tid)

  function With(s: State, t: Tid, thread: Thread): State {
    s.(threads := s.threads[t := thread])
  }

  /** Return and drop the guard. */
  function Return(s: State, t: Tid, token: Option<string>): State {
    With(s, t, Returned(token)).(lock := if s.lock == Some(t) then None else s.lock)
  }

  function ThreadStep(s: State, t: Tid, step: Step): State
    requires t in s.threads
  {
    var thread := s.threads[t];
    match step
    case Tick(_) => s
    case LoadFirst(_, readable) =>
      if !thread.Started? then s
      else if !readable || s.store.None? then Return(s, t, None)
      else With(s, t, LoadedOnce(s.store.value))
    case CheckRefresh(_) =>
      if !thread.LoadedOnce? then s
      else if thread.creds.RefreshExpired(s.now) then Return(s, t, None)
      else With(s, t, RefreshUsable(thread.creds))
    case CheckFast(_) =>
      if !thread.RefreshUsable? then s
      else if !thread.creds.AccessExpired(s.now, BUFFER_SECS) then Return(s, t, Some(thread.creds.accessToken))
      else With(s, t, WaitingForLock)
    case Acquire(_) =>
      if !thread.WaitingForLock? || s.lock.Some? then s
      else if s.poisoned then Return(s, t, None)
      else With(s, t, Locked).(lock := Some(t))
    case LoadSecond(_, readable) =>
      if !thread.Locked? then s
      else if !readable || s.store.None? then Return(s, t, None)
      else With(s, t, LoadedAgain(s.store.value))
    case CheckLocked(_) =>
      if !thread.LoadedAgain? then s
      else if !thread.creds.AccessExpired(s.now, BUFFER_SECS) then Return(s, t, Some(thread.creds.accessToken))
      else With(s, t, Refreshing(thread.creds)).(
        requests := s.requests + [Request(t, thread.creds, s.now, s.store, s.lock)])
    case RefreshAnswers(_, renewed) =>
      if !thread.Refreshing? then s
      else if renewed.None? then Return(s, t, None).(failed := s.failed + 1)
      else With(s, t, Storing(renewed.value))
    case Store(_, succeeds) =>
      if !thread.Storing? then s
      else
        var after := Return(s, t, Some(thread.renewed.accessToken));
        if succeeds then after.(store := Some(thread.renewed), stored := s.stored + 1)
        else after.(failed := s.failed + 1)
    case Panic(_) =>
      if !thread.HasLock() then Return(s, t, None)
      else Return(s, t, None).(poisoned := true, failed := s.failed + if thread.InFlight() then 1 else 0)
  }

  function Next(s: State, step: Step): State {
    if step.Tick? then s.(now := s.now + step.seconds)
    else if step.tid !in s.threads then s
    else ThreadStep(s, step.tid, step)
  }

  function Initial(now: int, store: Option<Credentials>, tids: set<Tid>): State {
    State(now, store, None, false, map t | t in tids :: Started, [], 0, 0)
  }

  function Run(s: State, steps: seq<Step>): State {
    if steps == [] then s else Next(Run(s, steps[..|steps| - 1]), steps[|steps| - 1])
  }

  // ---------- a refresh starts only under the lock, on a token inside the buffer ----------

  ghost predicate Justified(r: Request) {
    r.holder == Some(r.tid) && r.stored == Some(r.creds) && r.creds.AccessExpired(r.at, BUFFER_SECS)
  }

  /** The number of threads between issuing a request and ending it: the holder, or none. */
  function InFlightCount(s: State): nat {
    if s.lock.Some? && s.lock.value in s.threads && s.threads[s.lock.value].InFlight() then 1 else 0
  }

  ghost predicate Inv(s: State) {
    && (forall t :: t in s.threads && s.threads[t].HasLock() ==> s.lock == Some(t))
    && (s.lock.Some? ==> s.lock.value in s.threads && s.threads[s.lock.value].HasLock())
    && (forall t :: t in s.threads && s.threads[t].LoadedAgain? ==> s.store == Some(s.threads[t].creds))
    && (forall i :: 0 <= i < |s.requests| ==> Justified(s.requests[i]))
    && |s.requests| == s.failed + s.stored + InFlightCount(s)
  }

  /** Steps up to the second check, which issue and end no request. */
  predicate Preliminary(step: Step) {
    step.Tick? || step.LoadFirst? || step.CheckRefresh? || step.CheckFast? || step.Acquire? || step.LoadSecond?
  }

  /** A thread that moves on without the lock. */
  lemma MoveKeepsInv(s: State, t: Tid, thread: Thread)
    requires Inv(s) && t in s.threads && !s.threads[t].HasLock() && !thread.HasLock()
    ensures Inv(With(s, t, thread)) && s.lock != Some(t)
  {
  }

  lemma UnlockedKeepsInv(s: State, step: Step)
    requires Inv(s) && Preliminary(step) && !step.Acquire? && !step.LoadSecond?
    ensures Inv(Next(s, step))
  {
    if !step.Tick? && step.tid in s.threads {
      var s' := Next(s, step);
      if s' != s {
        MoveKeepsInv(s, step.tid, s'.threads[step.tid]);
      }
    }
  }

  lemma LockingKeepsInv(s: State, step: Step)
    requires Inv(s) && (step.Acquire? || step.LoadSecond?)
    ensures Inv(Next(s, step))
  {
  }

  lemma PreliminaryKeepsInv(s: State, step: Step)
    requires Inv(s) && Preliminary(step)
    ensures Inv(Next(s, step))
  {
    if step.Acquire? || step.LoadSecond? {
      LockingKeepsInv(s, step);
    } else {
      UnlockedKeepsInv(s, step);
    }
  }

  lemma RequestKeepsInv(s: State, step: Step)
    requires Inv(s) && !Preliminary(step)
    ensures Inv(Next(s, step))
  {
  }

  lemma NextKeepsInv(s: State, step: Step)
    requires Inv(s)
    ensures Inv(Next(s, step))
  {
    if Preliminary(step) {
      PreliminaryKeepsInv(s, step);
    } else {
      RequestKeepsInv(s, step);
    }
  }

  lemma {:induction false} RunKeepsInv(now: int, store: Option<Credentials>, tids: set<Tid>, steps: seq<Step>)
    ensures Inv(Run(Initial(now, store, tids), steps))
  {
    if steps != [] {
      RunKeepsInv(now, store, tids, steps[..|steps| - 1]);
      NextKeepsInv(Run(Initial(now, store, tids), steps[..|steps| - 1]), steps[|steps| - 1]);
    }
  }

  /** In every run each request was issued by the holder of the lock, for the credentials then
      stored, whose access token was inside the buffer; and at most one is in flight. */
  lemma RefreshOnlyUnderLock(now: int, store: Option<Credentials>, tids: set<Tid>, steps: seq<Step>)
    ensures var s := Run(Initial(now, store, tids), steps);
            && (forall i :: 0 <= i < |s.requests| ==> Justified(s.requests[i]))
            && (forall t, u ::
                  t in s.threads && u in s.threads && s.threads[t].InFlight() && s.threads[u].InFlight() ==> t == u)
            && s.failed + s.stored <= |s.requests| <= s.failed + s.stored + 1
  {
    RunKeepsInv(now, store, tids, steps);
  }

  // ---------- single flight ----------

  /** New tokens outlive the buffer until `horizon`, and stores succeed. */
  ghost predicate Lasting(step: Step, horizon: int) {
    && (step.RefreshAnswers? && step.renewed.Some? ==> step.renewed.value.accessExpires > horizon + BUFFER_SECS)
    && (step.Store? ==> step.succeeds)
  }

  ghost predicate FlightInv(s: State, horizon: int) {
    && (forall t :: t in s.threads && s.threads[t].Storing? ==>
          s.threads[t].renewed.accessExpires > horizon + BUFFER_SECS)
    && s.stored <= 1
    && (s.stored == 1 ==> s.store.Some? && s.store.value.accessExpires > horizon + BUFFER_SECS && InFlightCount(s) == 0)
  }

  lemma PreliminaryKeepsFlight(s: State, step: Step, horizon: int)
    requires Inv(s) && FlightInv(s, horizon) && Preliminary(step)
    ensures FlightInv(Next(s, step), horizon)
  {
    var s' := Next(s, step);
    assert s'.stored == s.stored && s'.store == s.store;
    if !step.Tick? && step.tid in s.threads {
      PreliminaryThread(s, step);
    }
  }

  /** A preliminary step puts no thread in flight, and takes none out. */
  lemma PreliminaryThread(s: State, step: Step)
    requires Inv(s) && Preliminary(step) && !step.Tick? && step.tid in s.threads
    ensures var s', t := Next(s, step), step.tid;
            && s'.threads == s.threads[t := s'.threads[t]]
            && (s'.threads[t] == s.threads[t] || (!s'.threads[t].InFlight() && !s.threads[t].InFlight()))
            && InFlightCount(s') == InFlightCount(s)
  {
  }

  lemma RequestKeepsFlight(s: State, step: Step, horizon: int)
    requires Inv(s) && FlightInv(s, horizon) && Lasting(step, horizon) && !Preliminary(step)
    requires s.now <= horizon
    ensures FlightInv(Next(s, step), horizon)
  {
  }

  lemma NextKeepsFlight(s: State, step: Step, horizon: int)
    requires Inv(s) && FlightInv(s, horizon) && Lasting(step, horizon)
    requires s.now <= horizon
    ensures FlightInv(Next(s, step), horizon)
  {
    if Preliminary(step) {
      PreliminaryKeepsFlight(s, step, horizon);
    } else {
      RequestKeepsFlight(s, step, horizon);
    }
  }

  lemma {:induction false} RunKeepsFlight(
    now: int, store: Option<Credentials>, tids: set<Tid>, steps: seq<Step>, horizon: int)
    requires forall i :: 0 <= i < |steps| ==> Lasting(steps[i], horizon)
    requires Run(Initial(now, store, tids), steps).now <= horizon
    ensures FlightInv(Run(Initial(now, store, tids), steps), horizon)
  {
    if steps != [] {
      var n := |steps| - 1;
      var s := Run(Initial(now, store, tids), steps[..n]);
      assert s.now <= Next(s, steps[n]).now;
      RunKeepsFlight(now, store, tids, steps[..n], horizon);
      RunKeepsInv(now, store, tids, steps[..n]);
      NextKeepsFlight(s, steps[n], horizon);
    }
  }

  /** If stores succeed and new tokens outlive the buffer for the run, at most one request is
      issued beyond those that failed: after the first success there is no other. */
  lemma SingleFlight(now: int, store: Option<Credentials>, tids: set<Tid>, steps: seq<Step>, horizon: int)
    requires forall i :: 0 <= i < |steps| ==> Lasting(steps[i], horizon)
    requires Run(Initial(now, store, tids), steps).now <= horizon
    ensures var s := Run(Initial(now, store, tids), steps);
            |s.requests| <= s.failed + 1 && (s.stored == 1 ==> |s.requests| == s.failed + 1)
  {
    RunKeepsFlight(now, store, tids, steps, horizon);
    RunKeepsInv(now, store, tids, steps);
  }
}
