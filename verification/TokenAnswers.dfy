/** Which token `try_load_auth_token` (`src/api/client.rs`) returns: in every run one that was
    loaded from the store and found outside the buffer, or one that a refresh gave; and what an
    undisturbed call does in each case. */
module TokenAnswers {
  import opened Basics
  import opened TokenRefresh

  // ---------- every returned token has a source ----------

  ghost predicate WasLoaded(s: State, steps: seq<Step>, t: Tid, creds: Credentials) {
    exists j :: 0 <= j < |steps| && (steps[j] == LoadFirst(t, true) || steps[j] == LoadSecond(t, true)) &&
                Run(s, steps[..j]).store == Some(creds)
  }

  /** At one of the thread's checks the access token had more than 300 s left. */
  ghost predicate WasFresh(s: State, steps: seq<Step>, t: Tid, creds: Credentials) {
    exists j :: 0 <= j < |steps| && (steps[j] == CheckFast(t) || steps[j] == CheckLocked(t)) &&
                creds.accessExpires > Run(s, steps[..j]).now + 300
  }

  ghost predicate WasRenewed(steps: seq<Step>, t: Tid, creds: Credentials) {
    exists j :: 0 <= j < |steps| && steps[j] == RefreshAnswers(t, Some(creds))
  }

  ghost predicate HasSource(s: State, steps: seq<Step>, t: Tid, token: string) {
    exists creds: Credentials ::
      && token == creds.accessToken
      && ((WasLoaded(s, steps, t, creds) && WasFresh(s, steps, t, creds)) || WasRenewed(steps, t, creds))
  }

  ghost predicate Explained(s: State, steps: seq<Step>, t: Tid, thread: Thread) {
    match thread
    case LoadedOnce(creds) => WasLoaded(s, steps, t, creds)
    case RefreshUsable(creds) => WasLoaded(s, steps, t, creds)
    case LoadedAgain(creds) => WasLoaded(s, steps, t, creds)
    case Refreshing(creds) => WasLoaded(s, steps, t, creds)
    case Storing(renewed) => WasRenewed(steps, t, renewed)
    case Returned(token) => token.Some? ==> HasSource(s, steps, t, token.value)
    case _ => true
  }

  lemma SourcesStay(s: State, steps: seq<Step>, t: Tid, creds: Credentials)
    requires steps != []
    ensures var front := steps[..|steps| - 1];
            && (WasLoaded(s, front, t, creds) ==> WasLoaded(s, steps, t, creds))
            && (WasFresh(s, front, t, creds) ==> WasFresh(s, steps, t, creds))
            && (WasRenewed(front, t, creds) ==> WasRenewed(steps, t, creds))
  {
    var front := steps[..|steps| - 1];
    assert forall j :: 0 <= j < |front| ==> front[j] == steps[j] && front[..j] == steps[..j];
  }

  lemma ExplainedStays(s: State, steps: seq<Step>, t: Tid, thread: Thread)
    requires steps != [] && Explained(s, steps[..|steps| - 1], t, thread)
    ensures Explained(s, steps, t, thread)
  {
    forall creds: Credentials
      ensures var front := steps[..|steps| - 1];
              && (WasLoaded(s, front, t, creds) ==> WasLoaded(s, steps, t, creds))
              && (WasFresh(s, front, t, creds) ==> WasFresh(s, steps, t, creds))
              && (WasRenewed(front, t, creds) ==> WasRenewed(steps, t, creds))
    {
      SourcesStay(s, steps, t, creds);
    }
  }

  /** What a thread's step can make of it. */
  ghost predicate Moves(now: State, t: Tid, step: Step, from: Thread, to: Thread) {
    || to == from
    || to == Returned(None)
    || to == WaitingForLock
    || to == Locked
    || ((step == LoadFirst(t, true) || step == LoadSecond(t, true)) && now.store.Some? &&
        (to == LoadedOnce(now.store.value) || to == LoadedAgain(now.store.value)))
    || (from.LoadedOnce? && to == RefreshUsable(from.creds))
    || (from.LoadedAgain? && to == Refreshing(from.creds))
    || ((step == CheckFast(t) || step == CheckLocked(t)) && (from.RefreshUsable? || from.LoadedAgain?) &&
        from.creds.accessExpires > now.now + 300 && to == Returned(Some(from.creds.accessToken)))
    || (step.RefreshAnswers? && step.tid == t && step.renewed.Some? && to == Storing(step.renewed.value))
    || (from.Storing? && to == Returned(Some(from.renewed.accessToken)))
  }

  lemma ThreadMoves(now: State, t: Tid, step: Step)
    requires t in now.threads
    ensures t in Next(now, step).threads
    ensures Moves(now, t, step, now.threads[t], Next(now, step).threads[t])
  {
  }

  lemma MoveExplained(s: State, steps: seq<Step>, t: Tid, from: Thread, to: Thread)
    requires steps != []
    requires Explained(s, steps[..|steps| - 1], t, from)
    requires Moves(Run(s, steps[..|steps| - 1]), t, steps[|steps| - 1], from, to)
    ensures Explained(s, steps, t, to)
  {
    var n := |steps| - 1;
    var now, step := Run(s, steps[..n]), steps[n];
    ExplainedStays(s, steps, t, from);
    if to.Returned? && to.token.Some? && to != from {
      if from.Storing? {
        assert WasRenewed(steps, t, from.renewed);
      } else {
        assert WasFresh(s, steps, t, from.creds);
      }
      assert HasSource(s, steps, t, to.token.value);
    } else if to.LoadedOnce? || to.LoadedAgain? {
      assert to == from || WasLoaded(s, steps, t, to.creds);
    }
  }

  lemma StepExplained(s: State, steps: seq<Step>, t: Tid)
    requires steps != []
    requires var now := Run(s, steps[..|steps| - 1]);
             t in now.threads && Explained(s, steps[..|steps| - 1], t, now.threads[t])
    ensures var now := Run(s, steps);
            t in now.threads && Explained(s, steps, t, now.threads[t])
  {
    var now, step := Run(s, steps[..|steps| - 1]), steps[|steps| - 1];
    ThreadMoves(now, t, step);
    MoveExplained(s, steps, t, now.threads[t], Next(now, step).threads[t]);
  }

  /** In every run a returned token is the access token of credentials that this thread loaded and
      found with more than 300 s left, or that its own refresh answered. */
  lemma {:induction false} ReturnedTokenHasSource(
    now: int, store: Option<Credentials>, tids: set<Tid>, steps: seq<Step>, t: Tid)
    requires t in tids
    ensures var s := Run(Initial(now, store, tids), steps);
            t in s.threads && Explained(Initial(now, store, tids), steps, t, s.threads[t])
  {
    if steps != [] {
      ReturnedTokenHasSource(now, store, tids, steps[..|steps| - 1], t);
      StepExplained(Initial(now, store, tids), steps, t);
    }
  }

  // ---------- an undisturbed call ----------

  /** The thread after its first load and the two checks without the lock. */
  function FastPath(s: State, t: Tid, readable: bool): State {
    Next(Next(Next(s, LoadFirst(t, readable)), CheckRefresh(t)), CheckFast(t))
  }

  /** And after the lock, the second load and the second check. */
  function SlowPath(s: State, t: Tid, readable: bool): State {
    Next(Next(Next(s, Acquire(t)), LoadSecond(t, readable)), CheckLocked(t))
  }

  /** Without the lock: no credentials, or an expired refresh token, gives no token; an access
      token with more than 300 s left is returned; otherwise the thread waits for the lock.
      Nothing is requested and nothing else changes. */
  lemma FastPathMeaning(s: State, t: Tid, readable: bool)
    requires t in s.threads && s.threads[t].Started? && s.lock != Some(t)
    ensures FastPath(s, t, readable) ==
            s.(threads := s.threads[t :=
              if !readable || s.store.None? || s.store.value.refreshExpires <= s.now then Returned(None)
              else if s.store.value.accessExpires > s.now + 300 then Returned(Some(s.store.value.accessToken))
              else WaitingForLock])
  {
  }

  /** With a free lock: a token that another thread has renewed in the meantime is returned without
      a request; only a token still inside the buffer makes this thread ask for a new one. */
  lemma SlowPathMeaning(s: State, t: Tid, readable: bool)
    requires t in s.threads && s.threads[t].WaitingForLock? && s.lock.None?
    ensures SlowPath(s, t, readable) ==
            if s.poisoned || !readable || s.store.None? then s.(threads := s.threads[t := Returned(None)])
            else if s.store.value.accessExpires > s.now + 300
            then s.(threads := s.threads[t := Returned(Some(s.store.value.accessToken))])
            else s.(threads := s.threads[t := Refreshing(s.store.value)], lock := Some(t),
                    requests := s.requests + [Request(t, s.store.value, s.now, s.store, Some(t))])
  {
  }

  /** A refresh that answers gives its own token, stored or not, and releases the lock; one that
      fails gives none. */
  lemma RefreshMeaning(s: State, t: Tid, renewed: Option<Credentials>, succeeds: bool)
    requires t in s.threads && s.threads[t].Refreshing? && s.lock == Some(t)
    ensures var s' := Next(Next(s, RefreshAnswers(t, renewed)), Store(t, succeeds));
            && s'.lock.None? && s'.requests == s.requests
            && s'.threads == s.threads[t := Returned(if renewed.Some? then Some(renewed.value.accessToken) else None)]
            && s'.store == if renewed.Some? && succeeds then renewed else s.store
  {
  }

  /** A thread that panics returns no token; if it held the lock, the lock is poisoned, and from
      then on nobody gets past it: every thread that takes it returns no token. */
  lemma PanicMeaning(s: State, t: Tid)
    requires Inv(s) && t in s.threads
    ensures var s' := Next(s, Panic(t));
            && s'.threads == s.threads[t := Returned(None)]
            && s'.store == s.store && s'.requests == s.requests
            && (if s.threads[t].HasLock() then s'.poisoned && s'.lock.None?
                else s'.poisoned == s.poisoned && s'.lock == s.lock)
    ensures s.poisoned && s.threads[t].WaitingForLock? && s.lock.None? ==>
              Next(s, Acquire(t)) == s.(threads := s.threads[t := Returned(None)])
  {
  }
}
