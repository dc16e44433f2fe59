/** What the OpenCode plugin does for one tool call (`agent-support/opencode/git-ai.ts`): the
    calls of different keys do not affect each other, and the hooks of a key send exactly the
    checkpoints that the answers they get call for. */
module PluginCalls {
  import opened Basics
  import opened PluginHooks

  // ---------- the scope, in order ----------

  /** Resolving a list is resolving its parts: the paths keep their order, and the repositories
      of the first part come first. */
  lemma {:induction false} ScopeConcat(a: seq<string>, b: seq<string>, repoOf: Lookup)
    requires Knows(repoOf, a) && Knows(repoOf, b)
    ensures Knows(repoOf, a + b)
    ensures ScopeOf(a + b, repoOf).filePaths == ScopeOf(a, repoOf).filePaths + ScopeOf(b, repoOf).filePaths
    ensures ScopeOf(a, repoOf).repoDirs <= ScopeOf(a + b, repoOf).repoDirs
  {
    if b == [] {
      assert a + b == a;
    } else {
      var n := |b| - 1;
      ScopeConcat(a, b[..n], repoOf);
      assert (a + b)[..|a + b| - 1] == a + b[..n];
    }
  }

  /** What a checkpoint must cover: exactly the given paths that lie in a repository, in order,
      and exactly their repositories; it runs in the repository of the first such path. */
  ghost predicate Covers(scope: Scope, cwd: string, files: seq<string>, repoOf: Lookup)
    requires Knows(repoOf, files)
  {
    && scope == ScopeOf(files, repoOf)
    && (forall p :: p in scope.filePaths <==> p in files && repoOf[p].Some?)
    && (forall r :: r in scope.repoDirs <==> exists p :: p in files && repoOf[p] == Some(r))
    && scope.filePaths != [] && repoOf[scope.filePaths[0]] == Some(cwd)
  }

  predicate SomeInRepo(files: seq<string>, repoOf: Lookup)
    requires Knows(repoOf, files)
  {
    exists p :: p in files && repoOf[p].Some?
  }

  lemma {:induction false} FirstRepo(files: seq<string>, repoOf: Lookup)
    requires Knows(repoOf, files) && ScopeOf(files, repoOf).filePaths != []
    ensures var s := ScopeOf(files, repoOf);
            s.repoDirs != [] && s.filePaths[0] in files && repoOf[s.filePaths[0]] == Some(s.repoDirs[0])
  {
    var n := |files| - 1;
    if ScopeOf(files[..n], repoOf).filePaths != [] {
      FirstRepo(files[..n], repoOf);
      assert forall p :: p in files[..n] ==> p in files;
    } else {
      ScopeMeaning(files[..n], repoOf);
    }
  }

  lemma ScopeCovers(files: seq<string>, repoOf: Lookup)
    requires Knows(repoOf, files)
    ensures SomeInRepo(files, repoOf) <==> ScopeOf(files, repoOf).repoDirs != []
    ensures SomeInRepo(files, repoOf) ==>
              var s := ScopeOf(files, repoOf); s.repoDirs != [] && Covers(s, s.repoDirs[0], files, repoOf)
  {
    var s := ScopeOf(files, repoOf);
    ScopeMeaning(files, repoOf);
    if SomeInRepo(files, repoOf) {
      var p :| p in files && repoOf[p].Some?;
      assert p in s.filePaths;
      FirstRepo(files, repoOf);
    }
    if s.repoDirs != [] {
      assert s.repoDirs[0] in s.repoDirs;
    }
  }

  // ---------- one key at a time ----------

  /** All that concerns one key. */
  datatype View = View(pending: Option<CallInfo>, nonGit: Option<string>, hook: Option<Hook>, trace: seq<Event>)

  function KeyTrace(trace: seq<Event>, key: Key): seq<Event> {
    if trace == [] then []
    else
      var front, last := KeyTrace(trace[..|trace| - 1], key), trace[|trace| - 1];
      if last.key == key then front + [last] else front
  }

  function ViewOf(s: State, key: Key): View {
    View(Get(s.pending, key), Get(s.nonGit, key), Get(s.active, key), KeyTrace(s.trace, key))
  }

  lemma KeyTraceSnoc(trace: seq<Event>, e: Event, key: Key)
    ensures KeyTrace(trace + [e], key) == if e.key == key then KeyTrace(trace, key) + [e] else KeyTrace(trace, key)
  {
    assert (trace + [e])[..|trace|] == trace;
  }

  function RunFrom(s: State, steps: seq<Step>): State {
    if steps == [] then s else Next(RunFrom(s, steps[..|steps| - 1]), steps[|steps| - 1])
  }

  function Own(steps: seq<Step>, key: Key): seq<Step> {
    if steps == [] then []
    else
      var front, last := Own(steps[..|steps| - 1], key), steps[|steps| - 1];
      if last.key == key then front + [last] else front
  }

  /** The maps of a key. */
  ghost predicate SameMaps(s: State, t: State, key: Key) {
    && Get(s.pending, key) == Get(t.pending, key)
    && Get(s.nonGit, key) == Get(t.nonGit, key)
    && Get(s.active, key) == Get(t.active, key)
  }

  /** Two steps from alike states of a key: the same maps after them, and the same event if any. */
  ghost predicate Alike(s: State, s': State, t: State, t': State, key: Key) {
    && SameMaps(s', t', key)
    && ((s'.trace == s.trace && t'.trace == t.trace) ||
        exists e: Event :: e.key == key && s'.trace == s.trace + [e] && t'.trace == t.trace + [e])
  }

  lemma EmitAlike(s: State, s1: State, t: State, t1: State, e: Event, key: Key)
    requires e.key == key && s1.trace == s.trace && t1.trace == t.trace && SameMaps(s1, t1, key)
    ensures Alike(s, Emit(s1, e), t, Emit(t1, e), key)
  {
    assert Emit(s1, e).trace == s.trace + [e] && Emit(t1, e).trace == t.trace + [e];
  }

  lemma StartBeforeAlike(s: State, t: State, key: Key, tool: Tool, files: seq<string>)
    requires SameMaps(s, t, key)
    ensures Alike(s, OnStartBefore(s, key, tool, files), t, OnStartBefore(t, key, tool, files), key)
  {
    SameMembership(s, t, key);
  }

  lemma SameMembership(s: State, t: State, key: Key)
    requires SameMaps(s, t, key)
    ensures key in s.active <==> key in t.active
    ensures key in s.pending <==> key in t.pending
    ensures key in s.nonGit <==> key in t.nonGit
    ensures key in s.nonGit ==> s.nonGit[key] == t.nonGit[key]
  {
    assert key in s.active <==> Get(s.active, key).Some?;
    assert key in t.active <==> Get(t.active, key).Some?;
  }

  lemma StartAfterAlike(s: State, t: State, key: Key, tool: Tool, files: seq<string>)
    requires SameMaps(s, t, key)
    ensures Alike(s, OnStartAfter(s, key, tool, files), t, OnStartAfter(t, key, tool, files), key)
  {
    SameMembership(s, t, key);
    if key !in s.active {
      if key in s.nonGit {
        EmitAlike(s, s.(nonGit := s.nonGit - {key}), t, t.(nonGit := t.nonGit - {key}), NonGitClosed(key), key);
      } else {
        var call := Get(s.pending, key);
        var paths := if call.Some? then call.value.scope.filePaths else files;
        SuspendAlike(s, t, key, AfterFindingRepo(tool, call));
        SuspendAlike(s, t, key, AfterResolving(tool, call, paths));
      }
    }
  }

  lemma SuspendAlike(s: State, t: State, key: Key, hook: Hook)
    requires SameMaps(s, t, key)
    ensures Alike(s, Suspend(s, key, hook), t, Suspend(t, key, hook), key)
  {
  }

  lemma ScopeAlike(s: State, t: State, key: Key, tool: Tool, scope: Scope)
    requires SameMaps(s, t, key)
    ensures Alike(s, AfterScopeOfBefore(s, key, tool, scope), t, AfterScopeOfBefore(t, key, tool, scope), key)
  {
    if scope.repoDirs == [] {
      EmitAlike(s, Finish(s, key).(nonGit := s.nonGit[key := tool.name]),
                t, Finish(t, key).(nonGit := t.nonGit[key := tool.name]), NonGitOpened(key, tool.name), key);
    } else {
      var info := CallInfo(tool, scope);
      EmitAlike(s, Suspend(s, key, BeforeCheckpoint(info)), t, Suspend(t, key, BeforeCheckpoint(info)),
                PreSent(key, info, scope.repoDirs[0]), key);
    }
  }

  lemma PostAlike(s: State, t: State, key: Key, call: Option<CallInfo>, info: CallInfo, cwd: string)
    requires SameMaps(s, t, key)
    ensures Alike(s, SendPost(s, key, call, info, cwd), t, SendPost(t, key, call, info, cwd), key)
  {
    EmitAlike(s, Suspend(s, key, AfterCheckpoint(call)), t, Suspend(t, key, AfterCheckpoint(call)),
              PostSent(key, info, cwd), key);
  }

  lemma FinishAlike(s: State, t: State, key: Key)
    requires SameMaps(s, t, key)
    ensures Alike(s, Finish(s, key), t, Finish(t, key), key)
  {
  }

  lemma BeforeResolvedAlike(s: State, t: State, key: Key, repoOf: Lookup, tool: Tool, files: seq<string>)
    requires SameMaps(s, t, key) && Get(s.active, key) == Some(BeforeResolving(tool, files))
    ensures Alike(s, OnResolved(s, key, repoOf), t, OnResolved(t, key, repoOf), key)
  {
    SameMembership(s, t, key);
    FinishAlike(s, t, key);
    if Knows(repoOf, files) {
      ScopeAlike(s, t, key, tool, ScopeOf(files, repoOf));
    }
  }

  lemma AfterResolvedAlike(s: State, t: State, key: Key, repoOf: Lookup, hook: Hook)
    requires SameMaps(s, t, key) && Get(s.active, key) == Some(hook) && hook.AfterResolving?
    ensures Alike(s, OnResolved(s, key, repoOf), t, OnResolved(t, key, repoOf), key)
  {
    SameMembership(s, t, key);
    FinishAlike(s, t, key);
    if Knows(repoOf, hook.files) && ScopeOf(hook.files, repoOf).repoDirs != [] {
      var scope := ScopeOf(hook.files, repoOf);
      PostAlike(s, t, key, hook.call, CallInfo(hook.tool, scope), scope.repoDirs[0]);
    }
  }

  lemma ResolvedAlike(s: State, t: State, key: Key, repoOf: Lookup)
    requires SameMaps(s, t, key)
    ensures Alike(s, OnResolved(s, key, repoOf), t, OnResolved(t, key, repoOf), key)
  {
    SameMembership(s, t, key);
    if key in s.active {
      assert Get(s.active, key) == Get(t.active, key) == Some(s.active[key]);
      match s.active[key]
      case BeforeResolving(tool, files) => BeforeResolvedAlike(s, t, key, repoOf, tool, files);
      case AfterResolving(_, _, _) => AfterResolvedAlike(s, t, key, repoOf, s.active[key]);
      case _ =>
    }
  }

  lemma RepoFoundAlike(s: State, t: State, key: Key, repo: Option<string>)
    requires SameMaps(s, t, key)
    ensures Alike(s, OnRepoFound(s, key, repo), t, OnRepoFound(t, key, repo), key)
  {
    if key in s.active {
      assert Get(s.active, key) == Get(t.active, key) == Some(s.active[key]);
      match s.active[key]
      case BeforeFindingRepo(tool) =>
        ScopeAlike(s, t, key, tool, Scope([], if repo.Some? then [repo.value] else []));
      case AfterFindingRepo(tool, call) =>
        if repo.Some? {
          PostAlike(s, t, key, call, CallInfo(tool, Scope([], [repo.value])), repo.value);
        }
      case _ =>
    } else {
      assert Get(t.active, key) == None;
    }
  }

  lemma AnsweredAlike(s: State, t: State, step: Step)
    requires SameMaps(s, t, step.key) && (step.Acknowledged? || step.Rejected?)
    ensures Alike(s, Next(s, step), t, Next(t, step), step.key)
  {
    var key := step.key;
    if key in s.active {
      assert Get(s.active, key) == Get(t.active, key) == Some(s.active[key]);
      var hook := s.active[key];
      EmitAlike(s, Finish(s, key), t, Finish(t, key), Failed(key), key);
      EmitAlike(s, Finish(s, key).(pending := s.pending - {key}), t, Finish(t, key).(pending := t.pending - {key}),
                PostAcked(key), key);
      if hook.BeforeCheckpoint? {
        EmitAlike(s, Finish(s, key).(pending := s.pending[key := hook.info]),
                  t, Finish(t, key).(pending := t.pending[key := hook.info]), PreAcked(key, hook.info), key);
      }
    } else {
      assert Get(t.active, key) == None;
    }
  }

  /** What a step does to its key depends on that key's maps alone. */
  lemma SameKeySameStep(s: State, t: State, step: Step)
    requires ViewOf(s, step.key) == ViewOf(t, step.key)
    ensures ViewOf(Next(s, step), step.key) == ViewOf(Next(t, step), step.key)
  {
    SameKeyAlike(s, t, step);
    AlikeViews(s, Next(s, step), t, Next(t, step), step.key);
  }

  lemma AlikeViews(s: State, s': State, t: State, t': State, key: Key)
    requires ViewOf(s, key) == ViewOf(t, key) && Alike(s, s', t, t', key)
    ensures ViewOf(s', key) == ViewOf(t', key)
  {
    if s'.trace != s.trace {
      var e: Event :| e.key == key && s'.trace == s.trace + [e] && t'.trace == t.trace + [e];
      KeyTraceSnoc(s.trace, e, key);
      KeyTraceSnoc(t.trace, e, key);
    }
  }

  lemma OtherKeysUntouched(s: State, step: Step, key: Key)
    requires step.key != key
    ensures ViewOf(Next(s, step), key) == ViewOf(s, key)
  {
    OtherMapsUntouched(s, step, key);
    EmitsOwnEvent(s, step);
    var s' := Next(s, step);
    if s'.trace != s.trace {
      var e: Event :| e.key == step.key && s'.trace == s.trace + [e];
      KeyTraceSnoc(s.trace, e, key);
    }
  }

  lemma OtherMapsUntouched(s: State, step: Step, key: Key)
    requires step.key != key
    ensures SameMaps(Next(s, step), s, key)
  {
    if step.StartBefore? || step.StartAfter? {
      OtherMapsAtStart(s, step, key);
    } else {
      OtherMapsAtAnswer(s, step, key);
    }
  }

  lemma OtherMapsAtStart(s: State, step: Step, key: Key)
    requires step.key != key && (step.StartBefore? || step.StartAfter?)
    ensures SameMaps(Next(s, step), s, key)
  {
  }

  lemma OtherMapsAtAnswer(s: State, step: Step, key: Key)
    requires step.key != key && !step.StartBefore? && !step.StartAfter?
    ensures SameMaps(Next(s, step), s, key)
  {
  }

  lemma EmitsOwnEvent(s: State, step: Step)
    ensures var s' := Next(s, step);
            s'.trace == s.trace || exists e: Event :: e.key == step.key && s'.trace == s.trace + [e]
  {
    SameKeyAlike(s, s, step);
  }

  lemma SameKeyAlike(s: State, t: State, step: Step)
    requires SameMaps(s, t, step.key)
    ensures Alike(s, Next(s, step), t, Next(t, step), step.key)
  {
    match step
    case StartBefore(key, tool, files) => StartBeforeAlike(s, t, key, tool, files);
    case StartAfter(key, tool, files) => StartAfterAlike(s, t, key, tool, files);
    case Resolved(key, repoOf) => ResolvedAlike(s, t, key, repoOf);
    case RepoFound(key, repo) => RepoFoundAlike(s, t, key, repo);
    case Rejected(_) => AnsweredAlike(s, t, step);
    case Acknowledged(_) => AnsweredAlike(s, t, step);
  }

  /** Calls do not interfere: what a key has and sends in a run is what it would have and send if
      only its own steps were made. */
  lemma {:induction false} KeysIndependent(s: State, steps: seq<Step>, key: Key)
    ensures ViewOf(RunFrom(s, steps), key) == ViewOf(RunFrom(s, Own(steps, key)), key)
  {
    if steps != [] {
      var n := |steps| - 1;
      var front, last := steps[..n], steps[n];
      KeysIndependent(s, front, key);
      if last.key == key {
        assert Own(steps, key)[..|Own(front, key)|] == Own(front, key);
        SameKeySameStep(RunFrom(s, front), RunFrom(s, Own(front, key)), last);
      } else {
        OtherKeysUntouched(RunFrom(s, front), last, key);
      }
    }
  }

  /** A run is a run from the start, so reachable states satisfy the invariant. */
  lemma {:induction false} RunFromKeepsInv(s: State, steps: seq<Step>)
    requires Inv(s)
    ensures Inv(RunFrom(s, steps))
  {
    if steps != [] {
      RunFromKeepsInv(s, steps[..|steps| - 1]);
      NextKeeps(RunFrom(s, steps[..|steps| - 1]), steps[|steps| - 1]);
    }
  }

  lemma TwoSteps(s: State, steps: seq<Step>, key: Key, a: Step, b: Step)
    requires Own(steps, key) == [a, b]
    ensures ViewOf(RunFrom(s, steps), key) == ViewOf(Next(Next(s, a), b), key)
  {
    KeysIndependent(s, steps, key);
    assert [a, b][..1] == [a] && [a][..0] == [];
    assert RunFrom(s, [a]) == Next(s, a);
  }

  lemma OneStep(s: State, steps: seq<Step>, key: Key, a: Step)
    requires Own(steps, key) == [a]
    ensures ViewOf(RunFrom(s, steps), key) == ViewOf(Next(s, a), key)
  {
    KeysIndependent(s, steps, key);
    assert [a][..0] == [];
  }

  // ---------- the pre-hook ----------

  /** Nothing is remembered or running under the key. */
  ghost predicate Free(v: View) {
    v.pending.None? && v.nonGit.None? && v.hook.None?
  }

  /** An edit tool's pre-hook on a free key: with a path in a repository it sends a checkpoint
      that covers exactly such paths, and otherwise remembers the call as outside Git. */
  lemma EditPreHook(s: State, steps: seq<Step>, key: Key, tool: Tool, files: seq<string>, repoOf: Lookup)
    requires Free(ViewOf(s, key)) && tool.EditTool? && files != [] && Knows(repoOf, files)
    requires Own(steps, key) == [StartBefore(key, tool, files), Resolved(key, repoOf)]
    ensures var v, v' := ViewOf(s, key), ViewOf(RunFrom(s, steps), key);
            if SomeInRepo(files, repoOf) then
              exists scope, cwd :: Covers(scope, cwd, files, repoOf) &&
                v' == v.(hook := Some(BeforeCheckpoint(CallInfo(tool, scope))),
                         trace := v.trace + [PreSent(key, CallInfo(tool, scope), cwd)])
            else
              v' == v.(nonGit := Some(tool.name), trace := v.trace + [NonGitOpened(key, tool.name)])
  {
    TwoSteps(s, steps, key, StartBefore(key, tool, files), Resolved(key, repoOf));
    ScopeCovers(files, repoOf);
    var s1 := Next(s, StartBefore(key, tool, files));
    var s2 := Next(s1, Resolved(key, repoOf));
    assert s1.trace == s.trace && s1.active[key] == BeforeResolving(tool, files);
    KeyTraceSnoc(s.trace, s2.trace[|s.trace|], key);
    if SomeInRepo(files, repoOf) {
      var scope := ScopeOf(files, repoOf);
      assert Covers(scope, scope.repoDirs[0], files, repoOf);
    }
  }

  /** A shell tool's pre-hook on a free key: a checkpoint for the repository of its directory. */
  lemma BashPreHook(
    s: State, steps: seq<Step>, key: Key, tool: Tool, files: seq<string>, repo: Option<string>)
    requires Free(ViewOf(s, key)) && tool.BashTool?
    requires Own(steps, key) == [StartBefore(key, tool, files), RepoFound(key, repo)]
    ensures var v, v' := ViewOf(s, key), ViewOf(RunFrom(s, steps), key);
            if repo.Some? then
              var info := CallInfo(tool, Scope([], [repo.value]));
              v' == v.(hook := Some(BeforeCheckpoint(info)), trace := v.trace + [PreSent(key, info, repo.value)])
            else
              v' == v.(nonGit := Some(tool.name), trace := v.trace + [NonGitOpened(key, tool.name)])
  {
    TwoSteps(s, steps, key, StartBefore(key, tool, files), RepoFound(key, repo));
    var s1 := Next(s, StartBefore(key, tool, files));
    var s2 := Next(s1, RepoFound(key, repo));
    assert s1.trace == s.trace && s1.active[key] == BeforeFindingRepo(tool);
    KeyTraceSnoc(s.trace, s2.trace[|s.trace|], key);
  }

  lemma PreAcknowledged(s: State, key: Key, info: CallInfo)
    requires Inv(s) && ViewOf(s, key).hook == Some(BeforeCheckpoint(info))
    ensures ViewOf(Next(s, Acknowledged(key)), key) ==
            View(Some(info), None, None, KeyTrace(s.trace, key) + [PreAcked(key, info)])
  {
    assert s.active[key] == BeforeCheckpoint(info) && HookInv(s, key, s.active[key]);
    KeyTraceSnoc(s.trace, PreAcked(key, info), key);
  }

  lemma PreRejected(s: State, key: Key, info: CallInfo)
    requires Inv(s) && ViewOf(s, key).hook == Some(BeforeCheckpoint(info))
    ensures ViewOf(Next(s, Rejected(key)), key) == View(None, None, None, KeyTrace(s.trace, key) + [Failed(key)])
  {
    assert s.active[key] == BeforeCheckpoint(info) && HookInv(s, key, s.active[key]);
    KeyTraceSnoc(s.trace, Failed(key), key);
  }

  /** The acknowledgement makes the call pending; a rejection leaves the key free. */
  lemma PreHookEnds(s: State, steps: seq<Step>, key: Key, info: CallInfo)
    requires Inv(s) && ViewOf(s, key).hook == Some(BeforeCheckpoint(info))
    ensures Own(steps, key) == [Acknowledged(key)] ==>
              ViewOf(RunFrom(s, steps), key) ==
              View(Some(info), None, None, KeyTrace(s.trace, key) + [PreAcked(key, info)])
    ensures Own(steps, key) == [Rejected(key)] ==>
              ViewOf(RunFrom(s, steps), key) == View(None, None, None, KeyTrace(s.trace, key) + [Failed(key)])
  {
    PreAcknowledged(s, key, info);
    PreRejected(s, key, info);
    if Own(steps, key) == [Acknowledged(key)] {
      OneStep(s, steps, key, Acknowledged(key));
    } else if Own(steps, key) == [Rejected(key)] {
      OneStep(s, steps, key, Rejected(key));
    }
  }

  // ---------- the post-hook ----------

  /** An edit tool's post-hook sends a checkpoint that covers exactly the paths still in a
      repository: those of the open call if there is one, which must have the same repositories
      as before, and the given ones otherwise. Else it ends without a trace. */
  lemma EditPostHook(s: State, steps: seq<Step>, key: Key, tool: Tool, given: seq<string>, repoOf: Lookup)
    requires var v := ViewOf(s, key);
             && v.nonGit.None? && v.hook.None? && tool.EditTool?
             && (v.pending.Some? ==> v.pending.value.tool == tool)
             && (v.pending.None? ==> given != [])
             && Knows(repoOf, if v.pending.Some? then v.pending.value.scope.filePaths else given)
    requires Own(steps, key) == [StartAfter(key, tool, given), Resolved(key, repoOf)]
    ensures var v, v' := ViewOf(s, key), ViewOf(RunFrom(s, steps), key);
            var files := if v.pending.Some? then v.pending.value.scope.filePaths else given;
            if SomeInRepo(files, repoOf) && SameAsCall(v.pending, files, repoOf) then
              exists scope, cwd :: Covers(scope, cwd, files, repoOf) &&
                v' == v.(hook := Some(AfterCheckpoint(v.pending)),
                         trace := v.trace + [PostSent(key, CallInfo(tool, scope), cwd)])
            else v' == v
  {
    var v := ViewOf(s, key);
    var files := if v.pending.Some? then v.pending.value.scope.filePaths else given;
    TwoSteps(s, steps, key, StartAfter(key, tool, given), Resolved(key, repoOf));
    EditPostSuspends(s, key, tool, given);
    EditPostFinds(Next(s, StartAfter(key, tool, given)), key, tool, v.pending, files, repoOf);
  }

  lemma EditPostSuspends(s: State, key: Key, tool: Tool, given: seq<string>)
    requires var v := ViewOf(s, key);
             && v.nonGit.None? && v.hook.None? && tool.EditTool?
             && (if v.pending.Some? then v.pending.value.tool == tool else given != [])
    ensures var v := ViewOf(s, key);
            var files := if v.pending.Some? then v.pending.value.scope.filePaths else given;
            ViewOf(Next(s, StartAfter(key, tool, given)), key) ==
            v.(hook := Some(AfterResolving(tool, v.pending, files)))
  {
  }

  /** The repositories are the call's, if there is a call. */
  ghost predicate SameAsCall(call: Option<CallInfo>, files: seq<string>, repoOf: Lookup)
    requires Knows(repoOf, files)
  {
    call.Some? ==>
      forall r :: r in call.value.scope.repoDirs <==> exists p :: p in files && repoOf[p] == Some(r)
  }

  lemma EditPostFinds(
    s: State, key: Key, tool: Tool, call: Option<CallInfo>, files: seq<string>, repoOf: Lookup)
    requires ViewOf(s, key).hook == Some(AfterResolving(tool, call, files)) && Knows(repoOf, files)
    ensures var v, v' := ViewOf(s, key), ViewOf(Next(s, Resolved(key, repoOf)), key);
            if SomeInRepo(files, repoOf) && SameAsCall(call, files, repoOf) then
              exists scope, cwd :: Covers(scope, cwd, files, repoOf) &&
                v' == v.(hook := Some(AfterCheckpoint(call)),
                         trace := v.trace + [PostSent(key, CallInfo(tool, scope), cwd)])
            else v' == v.(hook := None)
  {
    var scope := ScopeOf(files, repoOf);
    assert s.active[key] == AfterResolving(tool, call, files);
    PostScope(call, files, repoOf);
    if scope.repoDirs != [] {
      KeyTraceSnoc(s.trace, PostSent(key, CallInfo(tool, scope), scope.repoDirs[0]), key);
    }
  }

  /** When the hook goes on to send, and with what. */
  lemma PostScope(call: Option<CallInfo>, files: seq<string>, repoOf: Lookup)
    requires Knows(repoOf, files)
    ensures var scope := ScopeOf(files, repoOf);
            && (SomeInRepo(files, repoOf) && SameAsCall(call, files, repoOf) <==>
                scope.repoDirs != [] && (call.Some? ==> SameRepos(call.value.scope.repoDirs, scope.repoDirs)))
            && (scope.repoDirs != [] ==> Covers(scope, scope.repoDirs[0], files, repoOf))
  {
    ScopeCovers(files, repoOf);
    ScopeMeaning(files, repoOf);
    if call.Some? {
      var scope := ScopeOf(files, repoOf);
      assert SameRepos(call.value.scope.repoDirs, scope.repoDirs) <==>
             forall r :: r in call.value.scope.repoDirs <==> r in scope.repoDirs;
    }
  }

  /** If the open call's paths are all found again, the checkpoint has exactly the call's paths. */
  lemma {:induction false} AllFoundAgain(files: seq<string>, repoOf: Lookup)
    requires Knows(repoOf, files) && forall p :: p in files ==> repoOf[p].Some?
    ensures ScopeOf(files, repoOf).filePaths == files
  {
    if files != [] {
      var n := |files| - 1;
      AllFoundAgain(files[..n], repoOf);
      assert files == files[..n] + [files[n]];
    }
  }

  /** A shell tool's post-hook sends a checkpoint for the repository it finds, which must be the
      open call's if there is one. */
  lemma BashPostHook(
    s: State, steps: seq<Step>, key: Key, tool: Tool, given: seq<string>, repo: Option<string>)
    requires var v := ViewOf(s, key);
             && v.nonGit.None? && v.hook.None? && tool.BashTool?
             && (v.pending.Some? ==> v.pending.value.tool == tool)
    requires Own(steps, key) == [StartAfter(key, tool, given), RepoFound(key, repo)]
    ensures var v, v' := ViewOf(s, key), ViewOf(RunFrom(s, steps), key);
            if repo.Some? && (v.pending.Some? ==> v.pending.value.scope.repoDirs == [repo.value])
            then
              v' == v.(hook := Some(AfterCheckpoint(v.pending)),
                       trace := v.trace + [PostSent(key, CallInfo(tool, Scope([], [repo.value])), repo.value)])
            else v' == v
  {
    var v := ViewOf(s, key);
    TwoSteps(s, steps, key, StartAfter(key, tool, given), RepoFound(key, repo));
    BashPostSuspends(s, key, tool, given);
    BashPostFinds(Next(s, StartAfter(key, tool, given)), key, tool, v.pending, repo);
  }

  lemma BashPostSuspends(s: State, key: Key, tool: Tool, given: seq<string>)
    requires var v := ViewOf(s, key);
             && v.nonGit.None? && v.hook.None? && tool.BashTool?
             && (v.pending.Some? ==> v.pending.value.tool == tool)
    ensures var v := ViewOf(s, key);
            ViewOf(Next(s, StartAfter(key, tool, given)), key) == v.(hook := Some(AfterFindingRepo(tool, v.pending)))
  {
  }

  lemma BashPostFinds(s: State, key: Key, tool: Tool, call: Option<CallInfo>, repo: Option<string>)
    requires ViewOf(s, key).hook == Some(AfterFindingRepo(tool, call))
    ensures var v, v' := ViewOf(s, key), ViewOf(Next(s, RepoFound(key, repo)), key);
            if repo.Some? && (call.Some? ==> call.value.scope.repoDirs == [repo.value])
            then
              v' == v.(hook := Some(AfterCheckpoint(call)),
                       trace := v.trace + [PostSent(key, CallInfo(tool, Scope([], [repo.value])), repo.value)])
            else v' == v.(hook := None)
  {
    assert s.active[key] == AfterFindingRepo(tool, call);
    if repo.Some? {
      KeyTraceSnoc(s.trace, PostSent(key, CallInfo(tool, Scope([], [repo.value])), repo.value), key);
    }
  }

  lemma PostAcknowledged(s: State, key: Key, call: Option<CallInfo>)
    requires Inv(s) && ViewOf(s, key).hook == Some(AfterCheckpoint(call))
    ensures ViewOf(Next(s, Acknowledged(key)), key) ==
            View(None, None, None, KeyTrace(s.trace, key) + [PostAcked(key)])
  {
    assert s.active[key] == AfterCheckpoint(call) && HookInv(s, key, s.active[key]);
    KeyTraceSnoc(s.trace, PostAcked(key), key);
  }

  lemma PostRejected(s: State, key: Key, call: Option<CallInfo>)
    requires Inv(s) && ViewOf(s, key).hook == Some(AfterCheckpoint(call))
    ensures ViewOf(Next(s, Rejected(key)), key) ==
            View(ViewOf(s, key).pending, None, None, KeyTrace(s.trace, key) + [Failed(key)])
  {
    assert s.active[key] == AfterCheckpoint(call) && HookInv(s, key, s.active[key]);
    KeyTraceSnoc(s.trace, Failed(key), key);
  }

  /** The acknowledgement of a post-checkpoint frees the key; a rejection keeps the call pending. */
  lemma PostHookEnds(s: State, steps: seq<Step>, key: Key, call: Option<CallInfo>)
    requires Inv(s) && ViewOf(s, key).hook == Some(AfterCheckpoint(call))
    ensures Own(steps, key) == [Acknowledged(key)] ==>
              ViewOf(RunFrom(s, steps), key) == View(None, None, None, KeyTrace(s.trace, key) + [PostAcked(key)])
    ensures Own(steps, key) == [Rejected(key)] ==>
              ViewOf(RunFrom(s, steps), key) ==
              View(ViewOf(s, key).pending, None, None, KeyTrace(s.trace, key) + [Failed(key)])
  {
    PostAcknowledged(s, key, call);
    PostRejected(s, key, call);
    if Own(steps, key) == [Acknowledged(key)] {
      OneStep(s, steps, key, Acknowledged(key));
    } else if Own(steps, key) == [Rejected(key)] {
      OneStep(s, steps, key, Rejected(key));
    }
  }

  /** The post-hook of a call outside Git only forgets it, and only for the same tool. */
  lemma NonGitPostHook(s: State, steps: seq<Step>, key: Key, tool: Tool, given: seq<string>)
    requires ViewOf(s, key).nonGit.Some? && ViewOf(s, key).hook.None?
    requires Own(steps, key) == [StartAfter(key, tool, given)]
    ensures var v, v' := ViewOf(s, key), ViewOf(RunFrom(s, steps), key);
            v' == if v.nonGit == Some(tool.name) then v.(nonGit := None, trace := v.trace + [NonGitClosed(key)]) else v
  {
    OneStep(s, steps, key, StartAfter(key, tool, given));
    KeyTraceSnoc(s.trace, NonGitClosed(key), key);
  }

  /** A second pre-hook of a key that is pending or outside Git changes nothing in the end, and
      neither does a post-hook of another tool than the open call's. */
  lemma MisusedKeyIsRefused(s: State, steps: seq<Step>, key: Key, tool: Tool, files: seq<string>, repoOf: Lookup)
    requires Inv(s) && ViewOf(s, key).hook.None?
    requires Knows(repoOf, files)
    ensures Own(steps, key) == [StartBefore(key, tool, files), Resolved(key, repoOf)] && !Free(ViewOf(s, key)) ==>
              ViewOf(RunFrom(s, steps), key) == ViewOf(s, key)
    ensures Own(steps, key) == [StartAfter(key, tool, files)] &&
            (ViewOf(s, key).pending.Some? && ViewOf(s, key).pending.value.tool != tool) ==>
              ViewOf(RunFrom(s, steps), key) == ViewOf(s, key)
  {
    if Own(steps, key) == [StartBefore(key, tool, files), Resolved(key, repoOf)] {
      TwoSteps(s, steps, key, StartBefore(key, tool, files), Resolved(key, repoOf));
    } else if Own(steps, key) == [StartAfter(key, tool, files)] {
      OneStep(s, steps, key, StartAfter(key, tool, files));
    }
  }

  // ---------- a whole call ----------

  lemma BashCallOpens(s: State, pre: seq<Step>, preAck: seq<Step>, key: Key, tool: Tool, repo: string)
    requires Inv(s) && Free(ViewOf(s, key)) && tool.BashTool?
    requires Own(pre, key) == [StartBefore(key, tool, []), RepoFound(key, Some(repo))]
    requires Own(preAck, key) == [Acknowledged(key)]
    ensures var end, info := RunFrom(RunFrom(s, pre), preAck), CallInfo(tool, Scope([], [repo]));
            && Inv(end)
            && ViewOf(end, key) ==
               View(Some(info), None, None,
                    KeyTrace(s.trace, key) + [PreSent(key, info, repo)] + [PreAcked(key, info)])
  {
    var s1 := RunFrom(s, pre);
    BashPreHook(s, pre, key, tool, [], Some(repo));
    RunFromKeepsInv(s, pre);
    PreHookEnds(s1, preAck, key, CallInfo(tool, Scope([], [repo])));
    RunFromKeepsInv(s1, preAck);
  }

  lemma BashCallCloses(s: State, post: seq<Step>, postAck: seq<Step>, key: Key, tool: Tool, repo: string)
    requires Inv(s) && tool.BashTool?
    requires var v := ViewOf(s, key);
             v.pending == Some(CallInfo(tool, Scope([], [repo]))) && v.nonGit.None? && v.hook.None?
    requires Own(post, key) == [StartAfter(key, tool, []), RepoFound(key, Some(repo))]
    requires Own(postAck, key) == [Acknowledged(key)]
    ensures var end, info := RunFrom(RunFrom(s, post), postAck), CallInfo(tool, Scope([], [repo]));
            ViewOf(end, key) ==
            View(None, None, None, KeyTrace(s.trace, key) + [PostSent(key, info, repo)] + [PostAcked(key)])
  {
    var s1 := RunFrom(s, post);
    BashPostHook(s, post, key, tool, [], Some(repo));
    RunFromKeepsInv(s, post);
    PostHookEnds(s1, postAck, key, Some(CallInfo(tool, Scope([], [repo]))));
  }

  /** A shell call in one repository, with the steps of other calls anywhere in between: exactly
      one acknowledged pre-checkpoint and one acknowledged post-checkpoint, and a free key. */
  lemma BashCall(s: State, pre: seq<Step>, preAck: seq<Step>, post: seq<Step>, postAck: seq<Step>,
                 key: Key, tool: Tool, repo: string)
    requires Inv(s) && Free(ViewOf(s, key)) && tool.BashTool?
    requires Own(pre, key) == [StartBefore(key, tool, []), RepoFound(key, Some(repo))]
    requires Own(preAck, key) == [Acknowledged(key)]
    requires Own(post, key) == [StartAfter(key, tool, []), RepoFound(key, Some(repo))]
    requires Own(postAck, key) == [Acknowledged(key)]
    ensures var end := RunFrom(RunFrom(RunFrom(RunFrom(s, pre), preAck), post), postAck);
            var info := CallInfo(tool, Scope([], [repo]));
            && Free(ViewOf(end, key))
            && KeyTrace(end.trace, key) == KeyTrace(s.trace, key) +
               [PreSent(key, info, repo)] + [PreAcked(key, info)] + [PostSent(key, info, repo)] + [PostAcked(key)]
  {
    BashCallOpens(s, pre, preAck, key, tool, repo);
    BashCallCloses(RunFrom(RunFrom(s, pre), preAck), post, postAck, key, tool, repo);
  }
}
