/** The OpenCode plugin's pre- and post-tool hooks (`agent-support/opencode/git-ai.ts`), as a
    state machine over their await points.

    The hooks of one call key run one after the other, hooks of different keys interleave
    freely. What the file system answers at each await, and whether a checkpoint is
    acknowledged, is part of the step. A step that is not enabled does nothing. */
module PluginHooks {
  import opened Basics

  /** `JSON.stringify([sessionID, callID])` is injective, so the pair stands for it. */
  type Key = (string, string)

  datatype Tool = EditTool(name: string) | BashTool(name: string)

  datatype Scope = Scope(filePaths: seq<string>, repoDirs: seq<string>)

  /** What an acknowledged pre-hook leaves for its post-hook. */
  datatype CallInfo = CallInfo(tool: Tool, scope: Scope)

  // ---------- resolving the Git scope of a file list ----------

  type Lookup = map<string, Option<string>>

  predicate Knows(repoOf: Lookup, paths: seq<string>) {
    forall p :: p in paths ==> p in repoOf
  }

  /** The paths inside a repository, in order, and their repositories by first appearance. */
  function ScopeOf(paths: seq<string>, repoOf: Lookup): Scope
    requires Knows(repoOf, paths)
  {
    if paths == [] then Scope([], [])
    else
      var front, p := ScopeOf(paths[..|paths| - 1], repoOf), paths[|paths| - 1];
      match repoOf[p]
      case None => front
      case Some(r) =>
        Scope(front.filePaths + [p], if r in front.repoDirs then front.repoDirs else front.repoDirs + [r])
  }

  /** Exactly the paths in a repository, exactly their repositories, none twice. */
  lemma {:induction false} ScopeMeaning(paths: seq<string>, repoOf: Lookup)
    requires Knows(repoOf, paths)
    ensures var s := ScopeOf(paths, repoOf);
            && (forall p :: p in s.filePaths <==> p in paths && repoOf[p].Some?)
            && (forall r :: r in s.repoDirs <==> exists p :: p in paths && repoOf[p] == Some(r))
            && (forall i, j :: 0 <= i < j < |s.repoDirs| ==> s.repoDirs[i] != s.repoDirs[j])
            && (s.repoDirs == [] <==> s.filePaths == [])
  {
    if paths != [] {
      var front, p := paths[..|paths| - 1], paths[|paths| - 1];
      ScopeMeaning(front, repoOf);
      assert paths == front + [p];
      assert forall q :: q in paths <==> q in front || q == p;
    }
  }

  /** The loop with its cache: each distinct path is looked up once, whatever the file system
      would answer later. `find(n, p)` is the answer to the `n`-th lookup. */
  method ResolveGitFileScope(paths: seq<string>, find: (nat, string) -> Option<string>)
    returns (scope: Scope, repoOf: Lookup, lookups: nat)
    ensures lookups == |repoOf|
    ensures Knows(repoOf, paths) && scope == ScopeOf(paths, repoOf)
    ensures forall p :: p in repoOf ==> p in paths && exists n: nat :: repoOf[p] == find(n, p)
  {
    var filePaths, repoDirs: seq<string> := [], [];
    lookups, repoOf := 0, map[];
    for i := 0 to |paths|
      invariant lookups == |repoOf|
      invariant Knows(repoOf, paths[..i])
      invariant Scope(filePaths, repoDirs) == ScopeOf(paths[..i], repoOf)
      invariant forall p :: p in repoOf ==> p in paths[..i] && exists n: nat :: repoOf[p] == find(n, p)
    {
      var p := paths[i];
      assert paths[..i + 1] == paths[..i] + [p];
      ghost var before := repoOf;
      if p !in repoOf {
        repoOf := repoOf[p := find(lookups, p)];
        lookups := lookups + 1;
      }
      ScopeAgrees(paths[..i], before, repoOf);
      assert paths[..i + 1][..i] == paths[..i];
      if repoOf[p].Some? {
        filePaths := filePaths + [p];
        if repoOf[p].value !in repoDirs {
          repoDirs := repoDirs + [repoOf[p].value];
        }
      }
    }
    assert paths[..|paths|] == paths;
    scope := Scope(filePaths, repoDirs);
  }

  lemma {:induction false} ScopeAgrees(paths: seq<string>, a: Lookup, b: Lookup)
    requires Knows(a, paths) && Knows(b, paths) && forall p :: p in paths ==> a[p] == b[p]
    ensures ScopeOf(paths, a) == ScopeOf(paths, b)
  {
    if paths != [] {
      ScopeAgrees(paths[..|paths| - 1], a, b);
    }
  }

  // ---------- the state machine ----------

  /** Where a hook of a key is suspended. */
  datatype Hook =
    | BeforeResolving(tool: Tool, files: seq<string>)
    | BeforeFindingRepo(tool: Tool)
    | BeforeCheckpoint(info: CallInfo)
    | AfterResolving(tool: Tool, call: Option<CallInfo>, files: seq<string>)
    | AfterFindingRepo(tool: Tool, call: Option<CallInfo>)
    | AfterCheckpoint(call: Option<CallInfo>)

  datatype Event =
    | PreSent(key: Key, info: CallInfo, cwd: string)
    | PreAcked(key: Key, info: CallInfo)
    | PostSent(key: Key, info: CallInfo, cwd: string)
    | PostAcked(key: Key)
    | Failed(key: Key)
    | NonGitOpened(key: Key, toolName: string)
    | NonGitClosed(key: Key)

  datatype State = State(
    pending: map<Key, CallInfo>,
    nonGit: map<Key, string>,
    active: map<Key, Hook>,
    trace: seq<Event>)

  const START := State(map[], map[], map[], [])

  datatype Step =
    | StartBefore(key: Key, tool: Tool, files: seq<string>)
    | StartAfter(key: Key, tool: Tool, files: seq<string>)
    | Resolved(key: Key, repoOf: Lookup)
    | RepoFound(key: Key, repo: Option<string>)
    | Rejected(key: Key)       // the awaited operation threw, or the checkpoint failed
    | Acknowledged(key: Key)   // the checkpoint command exited with success

  function Get<V>(m: map<Key, V>, key: Key): Option<V> {
    if key in m then Some(m[key]) else None
  }

  function Suspend(s: State, key: Key, hook: Hook): State {
    s.(active := s.active[key := hook])
  }

  function Finish(s: State, key: Key): State {
    s.(active := s.active - {key})
  }

  function Emit(s: State, e: Event): State {
    s.(trace := s.trace + [e])
  }

  /** The pre-hook knows its repositories: remember a non-Git call, or send the checkpoint. */
  function AfterScopeOfBefore(s: State, key: Key, tool: Tool, scope: Scope): State {
    if scope.repoDirs == [] then
      Emit(Finish(s, key).(nonGit := s.nonGit[key := tool.name]), NonGitOpened(key, tool.name))
    else
      var info := CallInfo(tool, scope);
      Emit(Suspend(s, key, BeforeCheckpoint(info)), PreSent(key, info, scope.repoDirs[0]))
  }

  function SendPost(s: State, key: Key, call: Option<CallInfo>, info: CallInfo, cwd: string): State {
    Emit(Suspend(s, key, AfterCheckpoint(call)), PostSent(key, info, cwd))
  }

  predicate SameRepos(a: seq<string>, b: seq<string>) {
    (forall r :: r in a ==> r in b) && (forall r :: r in b ==> r in a)
  }

  function OnStartBefore(s: State, key: Key, tool: Tool, files: seq<string>): State {
    if key in s.active then s
    else if tool.EditTool? then (if files == [] then s else Suspend(s, key, BeforeResolving(tool, files)))
    else if key in s.pending || key in s.nonGit then s
    else Suspend(s, key, BeforeFindingRepo(tool))
  }

  function OnStartAfter(s: State, key: Key, tool: Tool, files: seq<string>): State {
    if key in s.active then s
    else if key in s.nonGit then
      if s.nonGit[key] != tool.name then s
      else Emit(s.(nonGit := s.nonGit - {key}), NonGitClosed(key))
    else
      var call := Get(s.pending, key);
      if call.Some? && call.value.tool != tool then s
      else if tool.BashTool? then Suspend(s, key, AfterFindingRepo(tool, call))
      else if call.None? && files == [] then s
      else Suspend(s, key, AfterResolving(tool, call, if call.Some? then call.value.scope.filePaths else files))
  }

  function OnResolved(s: State, key: Key, repoOf: Lookup): State {
    if key !in s.active then s
    else
      match s.active[key]
      case BeforeResolving(tool, files) =>
        if !Knows(repoOf, files) then s
        else if key in s.pending || key in s.nonGit then Finish(s, key)
        else AfterScopeOfBefore(s, key, tool, ScopeOf(files, repoOf))
      case AfterResolving(tool, call, files) =>
        if !Knows(repoOf, files) then s
        else
          var scope := ScopeOf(files, repoOf);
          if call.Some? && !SameRepos(call.value.scope.repoDirs, scope.repoDirs) then Finish(s, key)
          else if scope.repoDirs == [] then Finish(s, key)
          else SendPost(s, key, call, CallInfo(tool, scope), scope.repoDirs[0])
      case _ => s
  }

  function OnRepoFound(s: State, key: Key, repo: Option<string>): State {
    if key !in s.active then s
    else
      match s.active[key]
      case BeforeFindingRepo(tool) =>
        AfterScopeOfBefore(s, key, tool, Scope([], if repo.Some? then [repo.value] else []))
      case AfterFindingRepo(tool, call) =>
        if repo.None? then Finish(s, key)
        else if call.Some? && call.value.scope.repoDirs != [repo.value] then Finish(s, key)
        else SendPost(s, key, call, CallInfo(tool, Scope([], [repo.value])), repo.value)
      case _ => s
  }

  function OnAcknowledged(s: State, key: Key): State {
    if key !in s.active then s
    else
      match s.active[key]
      case BeforeCheckpoint(info) =>
        Emit(Finish(s, key).(pending := s.pending[key := info]), PreAcked(key, info))
      case AfterCheckpoint(_) => Emit(Finish(s, key).(pending := s.pending - {key}), PostAcked(key))
      case _ => s
  }

  /** A rejected checkpoint is visible in the trace; any other rejection only ends the hook. */
  function OnRejected(s: State, key: Key): State {
    if key in s.active && (s.active[key].BeforeCheckpoint? || s.active[key].AfterCheckpoint?)
    then Emit(Finish(s, key), Failed(key))
    else Finish(s, key)
  }

  function Next(s: State, step: Step): State {
    match step
    case StartBefore(key, tool, files) => OnStartBefore(s, key, tool, files)
    case StartAfter(key, tool, files) => OnStartAfter(s, key, tool, files)
    case Resolved(key, repoOf) => OnResolved(s, key, repoOf)
    case RepoFound(key, repo) => OnRepoFound(s, key, repo)
    case Rejected(key) => OnRejected(s, key)
    case Acknowledged(key) => OnAcknowledged(s, key)
  }

  function Run(steps: seq<Step>): State {
    if steps == [] then START else Next(Run(steps[..|steps| - 1]), steps[|steps| - 1])
  }

  // ---------- the trace as the specification ----------

  /** The call that the trace shows as acknowledged before and not yet after. */
  function OpenCall(trace: seq<Event>, key: Key): Option<CallInfo> {
    if trace == [] then None
    else
      match trace[|trace| - 1]
      case PreAcked(k, info) => if k == key then Some(info) else OpenCall(trace[..|trace| - 1], key)
      case PostAcked(k) => if k == key then None else OpenCall(trace[..|trace| - 1], key)
      case _ => OpenCall(trace[..|trace| - 1], key)
  }

  /** The call that the trace shows as classified outside Git and not yet closed. */
  function OpenNonGit(trace: seq<Event>, key: Key): Option<string> {
    if trace == [] then None
    else
      match trace[|trace| - 1]
      case NonGitOpened(k, name) => if k == key then Some(name) else OpenNonGit(trace[..|trace| - 1], key)
      case NonGitClosed(k) => if k == key then None else OpenNonGit(trace[..|trace| - 1], key)
      case _ => OpenNonGit(trace[..|trace| - 1], key)
  }

  /** The most recent event of the key. */
  function LastEvent(trace: seq<Event>, key: Key): Option<Event> {
    if trace == [] then None
    else if trace[|trace| - 1].key == key then Some(trace[|trace| - 1])
    else LastEvent(trace[..|trace| - 1], key)
  }

  /** The pre-checkpoint of exactly this call is under way. */
  ghost predicate PreUnderWay(trace: seq<Event>, key: Key, info: CallInfo) {
    var last := LastEvent(trace, key);
    last.Some? && last.value.PreSent? && last.value.info == info
  }

  ghost predicate PostUnderWay(trace: seq<Event>, key: Key) {
    var last := LastEvent(trace, key);
    last.Some? && last.value.PostSent?
  }

  /** What may follow `trace`. A checkpoint sent: for a new call nothing is open under the key;
      for an open call the same tool, the same repositories and no new file. An
      acknowledgement or a failure answers the checkpoint that is under way, which is the
      key's last event. */
  ghost predicate Legal(trace: seq<Event>, e: Event) {
    match e
    case PreSent(key, info, cwd) =>
      OpenCall(trace, key).None? && OpenNonGit(trace, key).None? && cwd in info.scope.repoDirs
    case PostSent(key, info, cwd) =>
      && OpenNonGit(trace, key).None?
      && cwd in info.scope.repoDirs
      && (OpenCall(trace, key).Some? ==>
            var open := OpenCall(trace, key).value;
            && info.tool == open.tool
            && SameRepos(open.scope.repoDirs, info.scope.repoDirs)
            && forall p :: p in info.scope.filePaths ==> p in open.scope.filePaths)
    case PreAcked(key, info) => PreUnderWay(trace, key, info)
    case PostAcked(key) => PostUnderWay(trace, key)
    case Failed(key) => PostUnderWay(trace, key) || exists info :: PreUnderWay(trace, key, info)
    case NonGitOpened(key, _) => OpenCall(trace, key).None? && OpenNonGit(trace, key).None?
    case NonGitClosed(key) => OpenNonGit(trace, key).Some?
  }

  ghost predicate LegalTrace(trace: seq<Event>) {
    forall i :: 0 <= i < |trace| ==> Legal(trace[..i], trace[i])
  }

  ghost predicate Sent(trace: seq<Event>, key: Key, hook: Hook) {
    match hook
    case BeforeCheckpoint(info) => PreUnderWay(trace, key, info)
    case AfterCheckpoint(_) => PostUnderWay(trace, key)
    case _ => true
  }

  /** What a suspended hook relies on: a pre-hook past its duplicate check holds a free key, a
      post-hook holds what the maps still say. */
  ghost predicate HookInv(s: State, key: Key, hook: Hook) {
    && Sent(s.trace, key, hook)
    && match hook
       case BeforeResolving(tool, _) => tool.EditTool?
       case BeforeFindingRepo(_) => key !in s.pending && key !in s.nonGit
       case BeforeCheckpoint(info) => key !in s.pending && key !in s.nonGit && info.scope.repoDirs != []
       case AfterResolving(tool, call, files) =>
         && key !in s.nonGit && call == Get(s.pending, key)
         && (call.Some? ==> call.value.tool == tool && files == call.value.scope.filePaths)
       case AfterFindingRepo(tool, call) =>
         key !in s.nonGit && call == Get(s.pending, key) && (call.Some? ==> call.value.tool == tool)
       case AfterCheckpoint(call) => key !in s.nonGit && call == Get(s.pending, key)
  }

  ghost predicate Inv(s: State) {
    && (forall key :: Get(s.pending, key) == OpenCall(s.trace, key))
    && (forall key :: Get(s.nonGit, key) == OpenNonGit(s.trace, key))
    && s.pending.Keys !! s.nonGit.Keys
    && (forall key :: key in s.pending ==> s.pending[key].scope.repoDirs != [])
    && (forall key :: key in s.active ==> HookInv(s, key, s.active[key]))
    && LegalTrace(s.trace)
  }

  // ---------- every step keeps the invariant ----------

  lemma TraceSnoc(trace: seq<Event>, e: Event)
    ensures LegalTrace(trace) && Legal(trace, e) ==> LegalTrace(trace + [e])
    ensures forall key :: OpenCall(trace + [e], key) ==
              if e.PreAcked? && e.key == key then Some(e.info)
              else if e.PostAcked? && e.key == key then None
              else OpenCall(trace, key)
    ensures forall key :: OpenNonGit(trace + [e], key) ==
              if e.NonGitOpened? && e.key == key then Some(e.toolName)
              else if e.NonGitClosed? && e.key == key then None
              else OpenNonGit(trace, key)
  {
    var all := trace + [e];
    assert all[..|trace|] == trace;
    forall i | 0 <= i < |trace| ensures all[..i] == trace[..i] && all[i] == trace[i] {
    }
  }

  lemma SentSnoc(trace: seq<Event>, e: Event, key: Key, hook: Hook)
    ensures Sent(trace, key, hook) && e.key != key ==> Sent(trace + [e], key, hook)
    ensures e.PreSent? && e.key == key && hook == BeforeCheckpoint(e.info) ==> Sent(trace + [e], key, hook)
    ensures e.PostSent? && e.key == key && hook.AfterCheckpoint? ==> Sent(trace + [e], key, hook)
  {
    assert (trace + [e])[..|trace|] == trace;
  }

  /** Steps that only suspend or end a hook. */
  lemma QuietKeeps(s: State, key: Key, s': State)
    requires Inv(s)
    requires s'.pending == s.pending && s'.nonGit == s.nonGit && s'.trace == s.trace
    requires s'.active == s.active - {key} ||
             (key in s'.active && s'.active == s.active[key := s'.active[key]] && HookInv(s, key, s'.active[key]))
    ensures Inv(s')
  {
  }

  /** Steps that emit an event and change at most the key's own entries. */
  lemma EmitKeeps(s: State, key: Key, s': State, e: Event)
    requires Inv(s) && Legal(s.trace, e) && e.key == key
    requires s'.trace == s.trace + [e]
    requires forall k :: k != key ==> Get(s'.pending, k) == Get(s.pending, k) && Get(s'.nonGit, k) == Get(s.nonGit, k)
    requires forall k :: k != key ==> Get(s'.active, k) == Get(s.active, k)
    requires Get(s'.pending, key) ==
             (if e.PreAcked? then Some(e.info) else if e.PostAcked? then None else Get(s.pending, key))
    requires Get(s'.nonGit, key) ==
             (if e.NonGitOpened? then Some(e.toolName) else if e.NonGitClosed? then None else Get(s.nonGit, key))
    requires key !in s'.pending || key !in s'.nonGit
    requires key in s'.pending ==> s'.pending[key].scope.repoDirs != []
    requires key in s'.active ==> HookInv(s', key, s'.active[key])
    ensures Inv(s')
  {
    TraceSnoc(s.trace, e);
    forall k ensures Get(s'.pending, k) == OpenCall(s'.trace, k) && Get(s'.nonGit, k) == OpenNonGit(s'.trace, k) {
      assert Get(s.pending, k) == OpenCall(s.trace, k) && Get(s.nonGit, k) == OpenNonGit(s.trace, k);
    }
    forall k | k in s'.pending ensures k !in s'.nonGit && s'.pending[k].scope.repoDirs != [] {
      assert k != key ==> Get(s.pending, k) == Some(s'.pending[k]);
      assert k != key ==> Get(s'.nonGit, k) == Get(s.nonGit, k);
    }
    forall k | k in s'.active ensures HookInv(s', k, s'.active[k]) {
      if k != key {
        assert Get(s.active, k) == Some(s'.active[k]);
        assert HookInv(s, k, s.active[k]);
        SentSnoc(s.trace, e, k, s.active[k]);
        assert Get(s'.pending, k) == Get(s.pending, k) && Get(s'.nonGit, k) == Get(s.nonGit, k);
      }
    }
  }

  lemma ScopeOfBeforeKeeps(s: State, key: Key, tool: Tool, scope: Scope)
    requires Inv(s) && key in s.active && key !in s.pending && key !in s.nonGit
    ensures Inv(AfterScopeOfBefore(s, key, tool, scope))
  {
    var s' := AfterScopeOfBefore(s, key, tool, scope);
    var e := s'.trace[|s.trace|];
    assert Get(s.pending, key) == OpenCall(s.trace, key) && Get(s.nonGit, key) == OpenNonGit(s.trace, key);
    if scope.repoDirs != [] {
      SentSnoc(s.trace, e, key, s'.active[key]);
    }
    EmitKeeps(s, key, s', e);
  }

  lemma SendPostKeeps(s: State, key: Key, call: Option<CallInfo>, info: CallInfo, cwd: string)
    requires Inv(s) && key in s.active && key !in s.nonGit && call == Get(s.pending, key)
    requires Legal(s.trace, PostSent(key, info, cwd))
    ensures Inv(SendPost(s, key, call, info, cwd))
  {
    var s' := SendPost(s, key, call, info, cwd);
    var e := PostSent(key, info, cwd);
    SentSnoc(s.trace, e, key, s'.active[key]);
    EmitKeeps(s, key, s', e);
  }

  lemma ResolvedKeeps(s: State, key: Key, repoOf: Lookup)
    requires Inv(s)
    ensures Inv(OnResolved(s, key, repoOf))
  {
    if key in s.active {
      assert HookInv(s, key, s.active[key]);
      match s.active[key]
      case BeforeResolving(tool, files) =>
        if Knows(repoOf, files) {
          if key in s.pending || key in s.nonGit {
            QuietKeeps(s, key, Finish(s, key));
          } else {
            ScopeOfBeforeKeeps(s, key, tool, ScopeOf(files, repoOf));
          }
        }
      case AfterResolving(tool, call, files) =>
        if Knows(repoOf, files) {
          var scope := ScopeOf(files, repoOf);
          ScopeMeaning(files, repoOf);
          QuietKeeps(s, key, Finish(s, key));
          if scope.repoDirs != [] && (call.Some? ==> SameRepos(call.value.scope.repoDirs, scope.repoDirs)) {
            assert Get(s.pending, key) == OpenCall(s.trace, key) && Get(s.nonGit, key) == OpenNonGit(s.trace, key);
            SendPostKeeps(s, key, call, CallInfo(tool, scope), scope.repoDirs[0]);
          }
        }
      case _ =>
    }
  }

  lemma RepoFoundKeeps(s: State, key: Key, repo: Option<string>)
    requires Inv(s)
    ensures Inv(OnRepoFound(s, key, repo))
  {
    if key in s.active {
      assert HookInv(s, key, s.active[key]);
      match s.active[key]
      case BeforeFindingRepo(tool) =>
        ScopeOfBeforeKeeps(s, key, tool, Scope([], if repo.Some? then [repo.value] else []));
      case AfterFindingRepo(tool, call) =>
        QuietKeeps(s, key, Finish(s, key));
        if repo.Some? && (call.Some? ==> call.value.scope.repoDirs == [repo.value]) {
          assert Get(s.pending, key) == OpenCall(s.trace, key) && Get(s.nonGit, key) == OpenNonGit(s.trace, key);
          SendPostKeeps(s, key, call, CallInfo(tool, Scope([], [repo.value])), repo.value);
        }
      case _ =>
    }
  }

  lemma AcknowledgedKeeps(s: State, key: Key)
    requires Inv(s)
    ensures Inv(OnAcknowledged(s, key))
  {
    if key in s.active {
      var hook, s' := s.active[key], OnAcknowledged(s, key);
      assert HookInv(s, key, hook);
      if hook.BeforeCheckpoint? {
        EmitKeeps(s, key, s', PreAcked(key, hook.info));
      } else if hook.AfterCheckpoint? {
        EmitKeeps(s, key, s', PostAcked(key));
      }
    }
  }

  lemma RejectedKeeps(s: State, key: Key)
    requires Inv(s)
    ensures Inv(OnRejected(s, key))
  {
    var s' := OnRejected(s, key);
    if s'.trace == s.trace {
      QuietKeeps(s, key, s');
    } else {
      assert HookInv(s, key, s.active[key]);
      EmitKeeps(s, key, s', Failed(key));
    }
  }

  lemma StartBeforeKeeps(s: State, key: Key, tool: Tool, files: seq<string>)
    requires Inv(s)
    ensures Inv(OnStartBefore(s, key, tool, files))
  {
  }

  lemma StartAfterKeeps(s: State, key: Key, tool: Tool, files: seq<string>)
    requires Inv(s)
    ensures Inv(OnStartAfter(s, key, tool, files))
  {
    var s' := OnStartAfter(s, key, tool, files);
    if key !in s.active {
      if key in s'.active {
        QuietKeeps(s, key, s');
      } else if key in s.nonGit && s.nonGit[key] == tool.name {
        EmitKeeps(s, key, s', NonGitClosed(key));
      }
    }
  }

  lemma NextKeeps(s: State, step: Step)
    requires Inv(s)
    ensures Inv(Next(s, step))
  {
    match step
    case StartBefore(key, tool, files) => StartBeforeKeeps(s, key, tool, files);
    case StartAfter(key, tool, files) => StartAfterKeeps(s, key, tool, files);
    case Resolved(key, repoOf) => ResolvedKeeps(s, key, repoOf);
    case RepoFound(key, repo) => RepoFoundKeeps(s, key, repo);
    case Rejected(key) => RejectedKeeps(s, key);
    case Acknowledged(key) => AcknowledgedKeeps(s, key);
  }

  lemma {:induction false} RunKeepsInv(steps: seq<Step>)
    ensures Inv(Run(steps))
  {
    if steps != [] {
      RunKeepsInv(steps[..|steps| - 1]);
      NextKeeps(Run(steps[..|steps| - 1]), steps[|steps| - 1]);
    }
  }

  // ---------- the theorem ----------

  /** In every run: no key is both pending and non-Git; a call is pending exactly from the
      acknowledgement of its pre-checkpoint to that of a post-checkpoint, and non-Git exactly
      from its classification to its post-hook; and every event is legal, so an open call's
      post-checkpoint names the same repositories and no new file, a non-Git call sends none,
      and an acknowledgement answers the checkpoint its own call has under way. */
  lemma PluginScopeSafety(steps: seq<Step>)
    ensures var s := Run(steps);
            && s.pending.Keys !! s.nonGit.Keys
            && (forall key :: Get(s.pending, key) == OpenCall(s.trace, key))
            && (forall key :: Get(s.nonGit, key) == OpenNonGit(s.trace, key))
            && LegalTrace(s.trace)
  {
    RunKeepsInv(steps);
  }
}
