/** What a conflict-resolution merge holds, stated on the two logs alone: which records and
    traces, what every gained author resolves to, and the form of the merged entries
    (`src/authorship/conflict_resolution.rs`). */
module ConflictMetadata {
  import opened Basics
  import opened LineRanges
  import opened AuthorshipLogs
  import opened ConflictResolution

  // ---------- records ----------

  lemma UsedGainsLine(existing: Log, resolution: Log, h: string)
    requires HasHash(FilterFiles(resolution.attestations, existing.attestations), h)
    ensures GainsLine(existing, resolution, MetadataKey(h))
  {
    var rest := FilterFiles(resolution.attestations, existing.attestations);
    FilterFilesHave(resolution.attestations, existing.attestations, h);
    var f, l: Line :| Claims(rest, f, h, l);
    FilterFilesClaim(resolution.attestations, existing.attestations, f, h, l);
  }

  lemma GainedHasHash(existing: Log, resolution: Log, f: string, h: string, l: Line)
    requires Claims(resolution.attestations, f, h, l) && !Covered(existing.attestations, f, l)
    ensures HasHash(FilterFiles(resolution.attestations, existing.attestations), h)
  {
    var rest := FilterFiles(resolution.attestations, existing.attestations);
    FilterFilesClaim(resolution.attestations, existing.attestations, f, h, l);
    var i :| 0 <= i < |rest| && rest[i].path == f && EntriesClaim(rest[i].entries, h, l);
    assert EntriesHave(rest[i].entries, h);
  }

  /** The keys that survive the filter are those of authors who gain a line. */
  lemma GainsLineIsUsed(existing: Log, resolution: Log, k: string)
    ensures k in UsedKeys(FilteredLog(resolution, existing).attestations) <==> GainsLine(existing, resolution, k)
  {
    var rest := FilterFiles(resolution.attestations, existing.attestations);
    UsedKeysMeaning(rest, k);
    if k in UsedKeys(rest) {
      var h :| HasHash(rest, h) && MetadataKey(h) == k;
      UsedGainsLine(existing, resolution, h);
    }
    if GainsLine(existing, resolution, k) {
      var f, h, l: Line :|
        MetadataKey(h) == k && Claims(resolution.attestations, f, h, l) && !Covered(existing.attestations, f, l);
      GainedHasHash(existing, resolution, f, h, l);
    }
  }

  /** The resolution's record under `k` takes part in the merge. */
  ghost predicate PromptTakesPart(existing: Log, resolution: Log, k: string) {
    k in resolution.metadata.prompts && GainsLine(existing, resolution, k) && !("h_" <= k) && !("s_" <= k)
  }

  ghost predicate HumanTakesPart(existing: Log, resolution: Log, k: string) {
    k in resolution.metadata.humans && GainsLine(existing, resolution, k) && "h_" <= k
  }

  ghost predicate SessionTakesPart(existing: Log, resolution: Log, k: string) {
    k in resolution.metadata.sessions && GainsLine(existing, resolution, k) && "s_" <= k
  }

  /** Exactly the existing prompts and humans and those of the resolution that take part; where
      both logs have one, the existing one stays. Only the commit id of the header changes. */
  lemma MergedRecords(existing: Log, resolution: Log, commitSha: string, k: string)
    ensures var old', m := existing.metadata, resolution.metadata;
            var new' := Merge(existing, resolution, commitSha).metadata;
            && (k in new'.prompts <==> k in old'.prompts || PromptTakesPart(existing, resolution, k))
            && (k in new'.prompts ==> new'.prompts[k] == if k in old'.prompts then old'.prompts[k] else m.prompts[k])
            && (k in new'.humans <==> k in old'.humans || HumanTakesPart(existing, resolution, k))
            && (k in new'.humans ==> new'.humans[k] == if k in old'.humans then old'.humans[k] else m.humans[k])
            && (k in new'.sessions <==> k in old'.sessions || SessionTakesPart(existing, resolution, k))
            && new'.schemaVersion == old'.schemaVersion
            && new'.gitAiVersion == old'.gitAiVersion
            && new'.baseCommitSha == commitSha
  {
    GainsLineIsUsed(existing, resolution, k);
    PrefixesDiffer(k);
  }

  /** A session only one log has is that log's; a shared one keeps the existing identity and has
      exactly the traces of both, the existing model first. */
  lemma MergedSessions(existing: Log, resolution: Log, commitSha: string, k: string, t: string)
    requires k in Merge(existing, resolution, commitSha).metadata.sessions
    ensures var old', m := existing.metadata.sessions, resolution.metadata.sessions;
            var r := Merge(existing, resolution, commitSha).metadata.sessions[k];
            if k !in old' then SessionTakesPart(existing, resolution, k) && r == m[k]
            else
              && r.agentId == old'[k].agentId
              && r.humanAuthor == old'[k].humanAuthor
              && r.customAttributes == old'[k].customAttributes
              && (t in r.traceModels <==>
                  t in old'[k].traceModels ||
                  (SessionTakesPart(existing, resolution, k) && t in m[k].traceModels))
              && (t in r.traceModels ==>
                    r.traceModels[t] ==
                    if t in old'[k].traceModels then old'[k].traceModels[t] else m[k].traceModels[t])
  {
    GainsLineIsUsed(existing, resolution, k);
    PrefixesDiffer(k);
  }

  /** The model an author of a session held by both logs resolves to: its trace's model in the
      existing log, else in the resolution, else the existing session's own. */
  function SharedModel(existing: SessionRecord, resolution: SessionRecord, author: string): string {
    match SplitAuthor(author)
    case None => existing.agentId.model
    case Some((_, t)) =>
      if t in existing.traceModels then existing.traceModels[t]
      else if t in resolution.traceModels then resolution.traceModels[t]
      else existing.agentId.model
  }

  /** An author who gains a line resolves to what the resolution gave it, unless the existing log
      already held its session: then to that session's tool and id, and the shared model. */
  lemma GainedAuthorResolves(existing: Log, resolution: Log, commitSha: string, f: string, h: string, l: Line)
    requires Claims(resolution.attestations, f, h, l) && !Covered(existing.attestations, f, l)
    requires "s_" <= MetadataKey(h)
    ensures var k, old', m := MetadataKey(h), existing.metadata.sessions, resolution.metadata.sessions;
            ResolveSession(Merge(existing, resolution, commitSha).metadata.sessions, h) ==
            if k !in old' then ResolveSession(m, h)
            else if k !in m then ResolveSession(old', h)
            else Some(AgentId(old'[k].agentId.tool, old'[k].agentId.id, SharedModel(old'[k], m[k], h)))
  {
    var k := MetadataKey(h);
    var old', m := existing.metadata.sessions, resolution.metadata.sessions;
    var new' := Merge(existing, resolution, commitSha).metadata.sessions;
    assert GainsLine(existing, resolution, k);
    MergedRecords(existing, resolution, commitSha, k);
    if k in new' {
      forall t ensures k in old' ==> (t in new'[k].traceModels <==>
                                      t in old'[k].traceModels || (k in m && t in m[k].traceModels))
      {
        MergedSessions(existing, resolution, commitSha, k, t);
      }
      if SplitAuthor(h).Some? {
        MergedSessions(existing, resolution, commitSha, k, SplitAuthor(h).value.1);
      } else {
        MergedSessions(existing, resolution, commitSha, k, "");
      }
    }
  }

  // ---------- the form of the attestations ----------

  /** Every entry of `before` is still in its place with its author; every entry that changed or
      is new has canonical ranges. */
  ghost predicate EntriesGrow(before: seq<AttestationEntry>, after: seq<AttestationEntry>) {
    && |before| <= |after|
    && (forall j :: 0 <= j < |before| ==>
          after[j].hash == before[j].hash && (after[j] == before[j] || Canonical(after[j].lineRanges)))
    && (forall j :: |before| <= j < |after| ==> Canonical(after[j].lineRanges))
  }

  ghost predicate FilesGrow(before: seq<FileAttestation>, after: seq<FileAttestation>) {
    && |before| <= |after|
    && (forall i :: 0 <= i < |before| ==>
          after[i].path == before[i].path && EntriesGrow(before[i].entries, after[i].entries))
    && (forall i :: |before| <= i < |after| ==> EntriesGrow([], after[i].entries))
  }

  lemma MergeEntryGrows(entries: seq<AttestationEntry>, e: AttestationEntry)
    ensures EntriesGrow(entries, MergeEntry(entries, e))
  {
    var k := EntryIndex(entries, e.hash);
    NormalizeMeaning(if k < |entries| then entries[k].lineRanges + e.lineRanges else e.lineRanges);
  }

  lemma {:induction false} MergeEntriesGrow(entries: seq<AttestationEntry>, source: seq<AttestationEntry>)
    ensures EntriesGrow(entries, MergeEntries(entries, source))
  {
    if source != [] {
      var front := MergeEntries(entries, source[..|source| - 1]);
      MergeEntriesGrow(entries, source[..|source| - 1]);
      MergeEntryGrows(front, source[|source| - 1]);
    }
  }

  lemma MergeFileGrows(atts: seq<FileAttestation>, file: FileAttestation)
    ensures FilesGrow(atts, MergeFile(atts, file))
  {
    var all := WithFile(atts, file.path);
    var k := FileIndex(all, file.path);
    MergeEntriesGrow(all[k].entries, file.entries);
  }

  /** The merge keeps every existing file and entry in its place and writes canonical ranges. */
  lemma {:induction false} MergeFilesGrow(atts: seq<FileAttestation>, source: seq<FileAttestation>)
    ensures FilesGrow(atts, MergeFiles(atts, source))
  {
    if source != [] {
      var front := MergeFiles(atts, source[..|source| - 1]);
      MergeFilesGrow(atts, source[..|source| - 1]);
      MergeFileGrows(front, source[|source| - 1]);
      FilesGrowTransitive(atts, front, MergeFiles(atts, source));
    }
  }

  lemma EntriesGrowTransitive(a: seq<AttestationEntry>, b: seq<AttestationEntry>, c: seq<AttestationEntry>)
    requires EntriesGrow(a, b) && EntriesGrow(b, c)
    ensures EntriesGrow(a, c)
  {
  }

  lemma FilesGrowTransitive(a: seq<FileAttestation>, b: seq<FileAttestation>, c: seq<FileAttestation>)
    requires FilesGrow(a, b) && FilesGrow(b, c)
    ensures FilesGrow(a, c)
  {
    forall i | 0 <= i < |a| ensures EntriesGrow(a[i].entries, c[i].entries) {
      EntriesGrowTransitive(a[i].entries, b[i].entries, c[i].entries);
    }
    forall i | |a| <= i < |b| ensures EntriesGrow([], c[i].entries) {
      EntriesGrowTransitive([], b[i].entries, c[i].entries);
    }
  }

  /** No author has two entries in a file. */
  ghost predicate OneEntryEach(entries: seq<AttestationEntry>) {
    forall i, j :: 0 <= i < j < |entries| ==> entries[i].hash != entries[j].hash
  }

  ghost predicate OneEntryPerAuthor(atts: seq<FileAttestation>) {
    && (forall i :: 0 <= i < |atts| ==> OneEntryEach(atts[i].entries))
    && (forall i, j :: 0 <= i < j < |atts| ==> atts[i].path != atts[j].path)
  }

  lemma {:induction false} MergeEntriesOnce(entries: seq<AttestationEntry>, source: seq<AttestationEntry>)
    requires OneEntryEach(entries)
    ensures OneEntryEach(MergeEntries(entries, source))
  {
    if source != [] {
      MergeEntriesOnce(entries, source[..|source| - 1]);
      MergeEntryOnce(MergeEntries(entries, source[..|source| - 1]), source[|source| - 1]);
    }
  }

  lemma MergeEntryOnce(entries: seq<AttestationEntry>, e: AttestationEntry)
    requires OneEntryEach(entries)
    ensures OneEntryEach(MergeEntry(entries, e))
  {
  }

  /** A merge adds to an author's entry rather than beside it: one file per path and one entry per
      author stay so, whatever the source. */
  lemma {:induction false} MergeFilesOnce(atts: seq<FileAttestation>, source: seq<FileAttestation>)
    requires OneEntryPerAuthor(atts)
    ensures OneEntryPerAuthor(MergeFiles(atts, source))
  {
    if source != [] {
      MergeFilesOnce(atts, source[..|source| - 1]);
      MergeFileOnce(MergeFiles(atts, source[..|source| - 1]), source[|source| - 1]);
    }
  }

  lemma MergeFileOnce(atts: seq<FileAttestation>, file: FileAttestation)
    requires OneEntryPerAuthor(atts)
    ensures OneEntryPerAuthor(MergeFile(atts, file))
  {
    var all := WithFile(atts, file.path);
    var k := FileIndex(all, file.path);
    assert OneEntryEach(all[k].entries);
    MergeEntriesOnce(all[k].entries, file.entries);
  }

  /** Without an existing log the merge is the resolution itself, file by file, in a new log. */
  lemma MergeIntoNothing(resolution: Log, commitSha: string, version: string)
    ensures var merged := Merge(NewLog(version), resolution, commitSha);
            && (forall f, h, l: Line ::
                  Claims(merged.attestations, f, h, l) <==> Claims(resolution.attestations, f, h, l))
            && FilesGrow([], merged.attestations)
            && merged.metadata.gitAiVersion == Some(version)
            && merged.metadata.schemaVersion == "authorship/3.0.0"
            && (forall k :: k in merged.metadata.sessions ==>
                  k in resolution.metadata.sessions && merged.metadata.sessions[k] == resolution.metadata.sessions[k])
  {
    var empty := NewLog(version);
    forall f, h, l: Line
      ensures Claims(Merge(empty, resolution, commitSha).attestations, f, h, l) <==>
              Claims(resolution.attestations, f, h, l)
    {
      MergeIsOverlay(empty, resolution, commitSha, f, h, l);
    }
    MergeFilesGrow([], FilteredLog(resolution, empty).attestations);
    forall k | k in Merge(empty, resolution, commitSha).metadata.sessions
      ensures k in resolution.metadata.sessions
      ensures Merge(empty, resolution, commitSha).metadata.sessions[k] == resolution.metadata.sessions[k]
    {
      MergedSessions(empty, resolution, commitSha, k, "");
    }
  }
}
