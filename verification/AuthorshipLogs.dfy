/** The authorship log and its session records
    (`src/authorship/authorship_log_serialization.rs`, `src/authorship/authorship_log.rs`).

    A log is a list of file attestations, each a list of (author id, line ranges)
    entries, plus metadata maps. `Claims` is its meaning: the relation that gives
    file `f` and author `h` the line `l`. */
module AuthorshipLogs {
  import opened Basics
  import opened LineRanges

  // ---------- author ids ----------

  /** Index of the first `::`, or -1. */
  function SeparatorIndex(s: string): (k: int)
    ensures -1 <= k
    ensures k >= 0 ==> k + 1 < |s| && s[k] == ':' && s[k + 1] == ':'
    ensures forall i :: 0 <= i < |s| - 1 && s[i] == ':' && s[i + 1] == ':' ==> 0 <= k <= i
  {
    if |s| < 2 then -1
    else if s[0] == ':' && s[1] == ':' then 0
    else
      var k := SeparatorIndex(s[1..]);
      assert forall i :: 1 <= i < |s| ==> s[i] == s[1..][i - 1];
      if k < 0 then -1 else k + 1
  }

  /** `split_once("::")`. */
  function SplitAuthor(author: string): Option<(string, string)> {
    var k := SeparatorIndex(author);
    if k < 0 then None else Some((author[..k], author[k + 2..]))
  }

  /** `split("::").next()`: the key under which an author's record is stored. */
  function MetadataKey(author: string): string {
    var k := SeparatorIndex(author);
    if k < 0 then author else author[..k]
  }

  function AuthorId(sessionId: string, traceId: string): string {
    sessionId + "::" + traceId
  }

  /** A session id that `AuthorId` can be split back from: no `::`, and no final `:`
      that would join the separator. */
  predicate Splittable(sessionId: string) {
    SeparatorIndex(sessionId + ":") < 0
  }

  /** Splitting inverts joining exactly on splittable session ids. */
  lemma AuthorIdRoundTrip(sessionId: string, traceId: string)
    ensures SplitAuthor(AuthorId(sessionId, traceId)) == Some((sessionId, traceId)) <==> Splittable(sessionId)
    ensures MetadataKey(AuthorId(sessionId, traceId)) == sessionId <==> Splittable(sessionId)
  {
    var a, p := AuthorId(sessionId, traceId), sessionId + ":";
    var n := |sessionId|;
    assert a[n] == ':' && a[n + 1] == ':';
    assert forall i :: 0 <= i <= n ==> a[i] == p[i];
    var k := SeparatorIndex(a);
    if Splittable(sessionId) {
      forall i | 0 <= i < n ensures a[i] != ':' || a[i + 1] != ':' {
        assert p[i] == a[i] && p[i + 1] == a[i + 1];
      }
      assert a[..n] == sessionId && a[n + 2..] == traceId;
    } else {
      var j := SeparatorIndex(p);
      assert a[j] == ':' && a[j + 1] == ':';
      assert |a[..k]| < n;
    }
  }

  // ---------- session records ----------

  datatype AgentId = AgentId(tool: string, id: string, model: string)

  datatype SessionRecord = SessionRecord(
    agentId: AgentId,
    traceModels: map<string, string>,
    humanAuthor: Option<string>,
    customAttributes: Option<map<string, string>>)
  {
    /** The agent behind an author id: the session's, with the model of the author's trace if known. */
    function AgentIdForAuthor(author: string): AgentId {
      match SplitAuthor(author)
      case Some((_, traceId)) =>
        if traceId in traceModels then agentId.(model := traceModels[traceId]) else agentId
      case None => agentId
    }

    function RecordTraceModel(traceId: string, model: string): SessionRecord {
      if traceId in traceModels then this else this.(traceModels := traceModels[traceId := model])
    }

    /** Union of the trace models, the receiver's winning. */
    function Merged(other: SessionRecord): SessionRecord {
      this.(traceModels := other.traceModels + traceModels)
    }

    /** Same conversation: everything but the trace models. */
    predicate SameSession(other: SessionRecord) {
      this.(traceModels := map[]) == other.(traceModels := map[])
    }
  }

  /** `merge_from`: every trace of `other`, one insertion at a time, in any order. */
  method MergeFrom(receiver: SessionRecord, other: SessionRecord) returns (r: SessionRecord)
    ensures r == receiver.Merged(other)
  {
    r := receiver;
    var todo := other.traceModels.Keys;
    while todo != {}
      invariant todo <= other.traceModels.Keys
      invariant r.SameSession(receiver)
      invariant r.traceModels == (other.traceModels - todo) + receiver.traceModels
      decreases todo
    {
      var traceId :| traceId in todo;
      r := r.RecordTraceModel(traceId, other.traceModels[traceId]);
      todo := todo - {traceId};
    }
    assert other.traceModels - {} == other.traceModels;
  }

  /** An identity that a session already gave a model for keeps it through a merge. */
  lemma MergedKeepsIdentity(receiver: SessionRecord, other: SessionRecord, author: string)
    ensures receiver.Merged(other).SameSession(receiver)
    ensures var split := SplitAuthor(author);
            receiver.Merged(other).AgentIdForAuthor(author) ==
            if split.Some? && split.value.1 !in receiver.traceModels && split.value.1 in other.traceModels
            then receiver.agentId.(model := other.traceModels[split.value.1])
            else receiver.AgentIdForAuthor(author)
  {
  }

  type Sessions = map<string, SessionRecord>

  /** The identity a log's sessions give to an author id. */
  function ResolveSession(sessions: Sessions, author: string): Option<AgentId> {
    var key := MetadataKey(author);
    if key in sessions then Some(sessions[key].AgentIdForAuthor(author)) else None
  }

  ghost predicate Referenced(authors: seq<string>, sessionId: string, traceId: string) {
    exists i :: 0 <= i < |authors| && SplitAuthor(authors[i]) == Some((sessionId, traceId))
  }

  ghost function PrunedRecord(record: SessionRecord, sessionId: string, authors: seq<string>): SessionRecord {
    record.(traceModels :=
      map t | t in record.traceModels && Referenced(authors, sessionId, t) :: record.traceModels[t])
  }

  ghost function Pruned(sessions: Sessions, authors: seq<string>): Sessions {
    map k | k in sessions :: PrunedRecord(sessions[k], k, authors)
  }

  /** The traces that the author ids refer to, by session. */
  method CollectReferences(authors: seq<string>) returns (referenced: map<string, set<string>>)
    ensures forall k, t :: (k in referenced && t in referenced[k]) <==> Referenced(authors, k, t)
  {
    referenced := map[];
    for i := 0 to |authors|
      invariant forall k, t :: (k in referenced && t in referenced[k]) <==> Referenced(authors[..i], k, t)
    {
      ReferencedSnoc(authors, i);
      match SplitAuthor(authors[i])
      case Some((sessionId, traceId)) =>
        var traces := if sessionId in referenced then referenced[sessionId] else {};
        referenced := referenced[sessionId := traces + {traceId}];
      case None =>
    }
    assert authors[..|authors|] == authors;
  }

  /** `retain_referenced_trace_models`: filter every session's trace models in place. */
  method RetainReferencedTraceModels(sessions: Sessions, authors: seq<string>) returns (r: Sessions)
    ensures r == Pruned(sessions, authors)
  {
    var referenced := CollectReferences(authors);
    r := sessions;
    var todo := sessions.Keys;
    while todo != {}
      invariant todo <= sessions.Keys && r.Keys == sessions.Keys
      invariant forall k :: k in todo ==> r[k] == sessions[k]
      invariant forall k :: k in sessions.Keys - todo ==> r[k] == PrunedRecord(sessions[k], k, authors)
      decreases todo
    {
      var k :| k in todo;
      var traces := if k in referenced then referenced[k] else {};
      var models := r[k].traceModels;
      var kept := map t | t in models && t in traces :: models[t];
      assert kept == PrunedRecord(sessions[k], k, authors).traceModels;
      r := r[k := r[k].(traceModels := kept)];
      todo := todo - {k};
    }
  }

  lemma ReferencedSnoc(authors: seq<string>, i: nat)
    requires i < |authors|
    ensures forall k, t :: Referenced(authors[..i + 1], k, t) <==>
                           Referenced(authors[..i], k, t) || SplitAuthor(authors[i]) == Some((k, t))
  {
  }

  /** Pruning changes an author's identity in exactly one case: its trace had a model of
      its own that no listed author refers to. */
  lemma PruningPreservesIdentity(sessions: Sessions, authors: seq<string>, author: string)
    ensures ResolveSession(Pruned(sessions, authors), author) == ResolveSession(sessions, author) <==>
            var key, split := MetadataKey(author), SplitAuthor(author);
            key in sessions && split.Some? && split.value.1 in sessions[key].traceModels &&
            sessions[key].traceModels[split.value.1] != sessions[key].agentId.model
            ==> Referenced(authors, key, split.value.1)
  {
  }

  /** So every listed author keeps its identity, and pruning twice is pruning once. */
  lemma PruningIsSafe(sessions: Sessions, authors: seq<string>)
    ensures forall i :: 0 <= i < |authors| ==>
              ResolveSession(Pruned(sessions, authors), authors[i]) == ResolveSession(sessions, authors[i])
    ensures Pruned(Pruned(sessions, authors), authors) == Pruned(sessions, authors)
  {
    forall i | 0 <= i < |authors|
      ensures ResolveSession(Pruned(sessions, authors), authors[i]) == ResolveSession(sessions, authors[i])
    {
      PruningPreservesIdentity(sessions, authors, authors[i]);
      var split := SplitAuthor(authors[i]);
      assert split.Some? ==> split.value.0 == MetadataKey(authors[i]);
    }
    forall k | k in sessions
      ensures PrunedRecord(PrunedRecord(sessions[k], k, authors), k, authors) == PrunedRecord(sessions[k], k, authors)
    {
      var once := PrunedRecord(sessions[k], k, authors);
      assert PrunedRecord(once, k, authors).traceModels == once.traceModels;
    }
  }

  // ---------- the log ----------

  datatype PromptRecord = PromptRecord(
    agentId: AgentId,
    humanAuthor: Option<string>,
    messagesUrl: Option<string>,
    totalAdditions: U32,
    totalDeletions: U32,
    acceptedLines: U32,
    overriddenLines: U32,
    customAttributes: Option<map<string, string>>)

  datatype HumanRecord = HumanRecord(author: string)

  datatype Metadata = Metadata(
    schemaVersion: string,
    gitAiVersion: Option<string>,
    baseCommitSha: string,
    prompts: map<string, PromptRecord>,
    humans: map<string, HumanRecord>,
    sessions: Sessions)

  datatype AttestationEntry = AttestationEntry(hash: string, lineRanges: seq<LineRange>)

  datatype FileAttestation = FileAttestation(path: string, entries: seq<AttestationEntry>)

  /** The value of a log at one moment. */
  datatype Log = Log(attestations: seq<FileAttestation>, metadata: Metadata)

  ghost predicate EntryClaims(e: AttestationEntry, h: string, l: Line) {
    e.hash == h && InRanges(e.lineRanges, l)
  }

  ghost predicate EntriesClaim(entries: seq<AttestationEntry>, h: string, l: Line) {
    exists j :: 0 <= j < |entries| && EntryClaims(entries[j], h, l)
  }

  /** Some entry for file `f` gives author `h` the line `l`. */
  ghost predicate Claims(atts: seq<FileAttestation>, f: string, h: string, l: Line) {
    exists i :: 0 <= i < |atts| && atts[i].path == f && EntriesClaim(atts[i].entries, h, l)
  }

  ghost predicate Covered(atts: seq<FileAttestation>, f: string, l: Line) {
    exists h :: Claims(atts, f, h, l)
  }

  ghost predicate HasRange(entries: seq<AttestationEntry>, l: Line) {
    exists j :: 0 <= j < |entries| && InRanges(entries[j].lineRanges, l)
  }

  lemma CoveredMeaning(atts: seq<FileAttestation>, f: string, l: Line)
    ensures Covered(atts, f, l) <==> exists i :: 0 <= i < |atts| && atts[i].path == f && HasRange(atts[i].entries, l)
  {
    forall i | 0 <= i < |atts| && atts[i].path == f && HasRange(atts[i].entries, l) ensures Covered(atts, f, l) {
      var j :| 0 <= j < |atts[i].entries| && InRanges(atts[i].entries[j].lineRanges, l);
      assert EntryClaims(atts[i].entries[j], atts[i].entries[j].hash, l);
      assert Claims(atts, f, atts[i].entries[j].hash, l);
    }
    if Covered(atts, f, l) {
      var h :| Claims(atts, f, h, l);
      var i :| 0 <= i < |atts| && atts[i].path == f && EntriesClaim(atts[i].entries, h, l);
      var j :| 0 <= j < |atts[i].entries| && EntryClaims(atts[i].entries[j], h, l);
      assert HasRange(atts[i].entries, l);
    }
  }

  /** No line of a file belongs to two authors. */
  ghost predicate Unambiguous(atts: seq<FileAttestation>) {
    forall f, h1, h2, l: Line :: Claims(atts, f, h1, l) && Claims(atts, f, h2, l) ==> h1 == h2
  }

  lemma EntriesClaimSnoc(entries: seq<AttestationEntry>, e: AttestationEntry, h: string, l: Line)
    ensures EntriesClaim(entries + [e], h, l) <==> EntriesClaim(entries, h, l) || EntryClaims(e, h, l)
  {
    var all := entries + [e];
    assert forall j :: 0 <= j < |entries| ==> all[j] == entries[j];
    assert all[|entries|] == e;
  }

  lemma ClaimsSnoc(atts: seq<FileAttestation>, file: FileAttestation, f: string, h: string, l: Line)
    ensures Claims(atts + [file], f, h, l) <==>
            Claims(atts, f, h, l) || (file.path == f && EntriesClaim(file.entries, h, l))
  {
    var all := atts + [file];
    assert forall i :: 0 <= i < |atts| ==> all[i] == atts[i];
    assert all[|atts|] == file;
  }

  /** Replacing one file's entries by entries that claim what they did and more. */
  lemma ClaimsUpdate(atts: seq<FileAttestation>, k: nat, entries: seq<AttestationEntry>, f: string, h: string, l: Line)
    requires k < |atts|
    requires EntriesClaim(atts[k].entries, h, l) ==> EntriesClaim(entries, h, l)
    ensures Claims(atts[k := atts[k].(entries := entries)], f, h, l) <==>
            Claims(atts, f, h, l) || (atts[k].path == f && EntriesClaim(entries, h, l))
  {
    var all := atts[k := atts[k].(entries := entries)];
    assert forall i :: 0 <= i < |atts| && i != k ==> all[i] == atts[i];
    assert all[k].path == atts[k].path && all[k].entries == entries;
  }

  /** Index of the first attestation for `path`, or the length of the list. */
  function FileIndex(atts: seq<FileAttestation>, path: string): (k: nat)
    ensures k <= |atts|
    ensures k < |atts| ==> atts[k].path == path
    ensures forall i :: 0 <= i < k ==> atts[i].path != path
  {
    if atts == [] then 0 else if atts[0].path == path then 0
    else
      var k := FileIndex(atts[1..], path);
      assert forall i :: 1 <= i < |atts| ==> atts[i] == atts[1..][i - 1];
      1 + k
  }

  function WithFile(atts: seq<FileAttestation>, path: string): (r: seq<FileAttestation>)
    ensures FileIndex(r, path) < |r|
  {
    if FileIndex(atts, path) < |atts| then atts
    else
      var r := atts + [FileAttestation(path, [])];
      assert r[|atts|].path == path;
      r
  }

  lemma WithFileClaims(atts: seq<FileAttestation>, path: string, f: string, h: string, l: Line)
    ensures Claims(WithFile(atts, path), f, h, l) <==> Claims(atts, f, h, l)
  {
    ClaimsSnoc(atts, FileAttestation(path, []), f, h, l);
  }

  /** Appending an entry to the first attestation of `path`. */
  function WithEntry(atts: seq<FileAttestation>, path: string, e: AttestationEntry): seq<FileAttestation> {
    var all := WithFile(atts, path);
    var k := FileIndex(all, path);
    all[k := all[k].(entries := all[k].entries + [e])]
  }

  lemma WithEntryClaims(atts: seq<FileAttestation>, path: string, e: AttestationEntry, f: string, h: string, l: Line)
    ensures Claims(WithEntry(atts, path, e), f, h, l) <==>
            Claims(atts, f, h, l) || (f == path && EntryClaims(e, h, l))
  {
    var all := WithFile(atts, path);
    var k := FileIndex(all, path);
    WithFileClaims(atts, path, f, h, l);
    EntriesClaimSnoc(all[k].entries, e, h, l);
    ClaimsUpdate(all, k, all[k].entries + [e], f, h, l);
    assert f == path && EntriesClaim(all[k].entries, h, l) ==> Claims(all, f, h, l);
  }

  /** The log object that the merge and the recovery stages update in place. */
  class AuthorshipLog {
    var attestations: seq<FileAttestation>
    var metadata: Metadata

    constructor (value: Log)
      ensures Value() == value
    {
      attestations, metadata := value.attestations, value.metadata;
    }

    ghost function Value(): Log
      reads this
    {
      Log(attestations, metadata)
    }

    /** The position of the first attestation for `path`, which is created empty if absent. */
    method GetOrCreateFile(path: string) returns (k: nat)
      modifies this`attestations
      ensures attestations == WithFile(old(attestations), path)
      ensures k == FileIndex(attestations, path) < |attestations|
    {
      if FileIndex(attestations, path) == |attestations| {
        attestations := attestations + [FileAttestation(path, [])];
      }
      k := FileIndex(attestations, path);
    }

    method AddEntry(path: string, entry: AttestationEntry)
      modifies this`attestations
      ensures attestations == WithEntry(old(attestations), path, entry)
    {
      var k := GetOrCreateFile(path);
      attestations := attestations[k := attestations[k].(entries := attestations[k].entries + [entry])];
    }
  }
}
