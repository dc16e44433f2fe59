/** Overlaying a conflict-resolution log on the shifted log of the rewritten commit
    (`src/authorship/conflict_resolution.rs`). */
module ConflictResolution {
  import opened Basics
  import opened LineRanges
  import opened AuthorshipLogs

  const AUTHORSHIP_LOG_VERSION := "authorship/3.0.0"

  // ---------- coverage ----------

  function EntryRanges(entries: seq<AttestationEntry>): seq<LineRange> {
    if entries == [] then []
    else EntryRanges(entries[..|entries| - 1]) + entries[|entries| - 1].lineRanges
  }

  function CoverRanges(atts: seq<FileAttestation>, f: string): seq<LineRange> {
    if atts == [] then []
    else
      var last := atts[|atts| - 1];
      CoverRanges(atts[..|atts| - 1], f) + (if last.path == f then EntryRanges(last.entries) else [])
  }

  /** The normalised cover of one file; empty for a file the log does not mention. */
  function FileCover(atts: seq<FileAttestation>, f: string): seq<LineRange> {
    Normalize(CoverRanges(atts, f))
  }

  lemma {:induction false} EntryRangesMeaning(entries: seq<AttestationEntry>, l: Line)
    ensures InRanges(EntryRanges(entries), l) <==> HasRange(entries, l)
  {
    if entries != [] {
      var n := |entries| - 1;
      EntryRangesMeaning(entries[..n], l);
      InRangesConcat(EntryRanges(entries[..n]), entries[n].lineRanges, l);
      assert forall j :: 0 <= j < n ==> entries[..n][j] == entries[j];
    }
  }

  lemma {:induction false} CoverRangesMeaning(atts: seq<FileAttestation>, f: string, l: Line)
    ensures InRanges(CoverRanges(atts, f), l) <==>
            exists i :: 0 <= i < |atts| && atts[i].path == f && HasRange(atts[i].entries, l)
  {
    if atts != [] {
      var n := |atts| - 1;
      var last := if atts[n].path == f then EntryRanges(atts[n].entries) else [];
      CoverRangesMeaning(atts[..n], f, l);
      EntryRangesMeaning(atts[n].entries, l);
      InRangesConcat(CoverRanges(atts[..n], f), last, l);
      assert forall j :: 0 <= j < n ==> atts[..n][j] == atts[j];
    }
  }

  /** The computed cover of a file is exactly its covered lines. */
  lemma FileCoverMeaning(atts: seq<FileAttestation>, f: string, l: Line)
    ensures InRanges(FileCover(atts, f), l) <==> Covered(atts, f, l)
  {
    NormalizeMeaning(CoverRanges(atts, f));
    CoverRangesMeaning(atts, f, l);
    CoveredMeaning(atts, f, l);
  }

  function Lookup(coverage: map<string, seq<LineRange>>, f: string): seq<LineRange> {
    if f in coverage then coverage[f] else []
  }

  method ConcatRanges(ranges: seq<LineRange>, entries: seq<AttestationEntry>) returns (r: seq<LineRange>)
    ensures r == ranges + EntryRanges(entries)
  {
    r := ranges;
    for j := 0 to |entries|
      invariant r == ranges + EntryRanges(entries[..j])
    {
      assert entries[..j + 1][..j] == entries[..j];
      r := r + entries[j].lineRanges;
    }
    assert entries[..|entries|] == entries;
  }

  method LineCoverageByFile(atts: seq<FileAttestation>) returns (coverage: map<string, seq<LineRange>>)
    ensures forall f :: Lookup(coverage, f) == FileCover(atts, f)
  {
    coverage := map[];
    for i := 0 to |atts|
      invariant forall f :: Lookup(coverage, f) == CoverRanges(atts[..i], f)
    {
      var path := atts[i].path;
      var ranges := ConcatRanges(Lookup(coverage, path), atts[i].entries);
      assert atts[..i + 1][..i] == atts[..i];
      coverage := coverage[path := ranges];
    }
    assert atts[..|atts|] == atts;
    coverage := NormalizeValues(coverage);
    assert Normalize([]) == [];
  }

  method NormalizeValues(coverage: map<string, seq<LineRange>>) returns (r: map<string, seq<LineRange>>)
    ensures r.Keys == coverage.Keys
    ensures forall f :: f in coverage ==> r[f] == Normalize(coverage[f])
  {
    r := coverage;
    var todo := coverage.Keys;
    while todo != {}
      invariant todo <= coverage.Keys && r.Keys == coverage.Keys
      invariant forall f :: f in coverage ==> r[f] == if f in todo then coverage[f] else Normalize(coverage[f])
      decreases todo
    {
      var f :| f in todo;
      var ranges := NormalizeLineRanges(r[f]);
      r := r[f := ranges];
      todo := todo - {f};
    }
  }

  // ---------- filtering the resolution log ----------

  function SubtractEntry(e: AttestationEntry, cover: seq<LineRange>): AttestationEntry {
    AttestationEntry(e.hash, Subtract(e.lineRanges, cover))
  }

  function SubtractEntries(entries: seq<AttestationEntry>, cover: seq<LineRange>): seq<AttestationEntry> {
    seq(|entries|, j requires 0 <= j < |entries| => SubtractEntry(entries[j], cover))
  }

  function NonEmptyEntries(entries: seq<AttestationEntry>): seq<AttestationEntry> {
    if entries == [] then []
    else
      var front, last := NonEmptyEntries(entries[..|entries| - 1]), entries[|entries| - 1];
      if last.lineRanges == [] then front else front + [last]
  }

  function FilterFile(file: FileAttestation, existing: seq<FileAttestation>): FileAttestation {
    file.(entries := NonEmptyEntries(SubtractEntries(file.entries, FileCover(existing, file.path))))
  }

  function FilterFiles(atts: seq<FileAttestation>, existing: seq<FileAttestation>): seq<FileAttestation> {
    if atts == [] then []
    else
      var front, last := FilterFiles(atts[..|atts| - 1], existing), FilterFile(atts[|atts| - 1], existing);
      if last.entries == [] then front else front + [last]
  }

  lemma {:induction false} NonEmptyEntriesClaim(entries: seq<AttestationEntry>, h: string, l: Line)
    ensures EntriesClaim(NonEmptyEntries(entries), h, l) <==> EntriesClaim(entries, h, l)
  {
    if entries != [] {
      var n := |entries| - 1;
      NonEmptyEntriesClaim(entries[..n], h, l);
      EntriesClaimSnoc(entries[..n], entries[n], h, l);
      EntriesClaimSnoc(NonEmptyEntries(entries[..n]), entries[n], h, l);
      assert entries == entries[..n] + [entries[n]];
    }
  }

  lemma FilterFileClaim(file: FileAttestation, existing: seq<FileAttestation>, h: string, l: Line)
    ensures EntriesClaim(FilterFile(file, existing).entries, h, l) <==>
            EntriesClaim(file.entries, h, l) && !Covered(existing, file.path, l)
  {
    var cover := FileCover(existing, file.path);
    var rest := SubtractEntries(file.entries, cover);
    NonEmptyEntriesClaim(rest, h, l);
    FileCoverMeaning(existing, file.path, l);
    forall j | 0 <= j < |file.entries|
      ensures EntryClaims(rest[j], h, l) <==> EntryClaims(file.entries[j], h, l) && !InRanges(cover, l)
    {
      SubtractExact(file.entries[j].lineRanges, cover);
    }
  }

  /** What is left of a resolution log: exactly its claims on lines the other log does not cover. */
  lemma {:induction false} FilterFilesClaim(
    atts: seq<FileAttestation>, existing: seq<FileAttestation>, f: string, h: string, l: Line)
    ensures Claims(FilterFiles(atts, existing), f, h, l) <==> Claims(atts, f, h, l) && !Covered(existing, f, l)
  {
    if atts != [] {
      var n := |atts| - 1;
      var last := FilterFile(atts[n], existing);
      FilterFilesClaim(atts[..n], existing, f, h, l);
      FilterFileClaim(atts[n], existing, h, l);
      ClaimsSnoc(atts[..n], atts[n], f, h, l);
      ClaimsSnoc(FilterFiles(atts[..n], existing), last, f, h, l);
      assert atts == atts[..n] + [atts[n]];
    }
  }

  method FilterEntries(entries: seq<AttestationEntry>, covered: seq<LineRange>) returns (r: seq<AttestationEntry>)
    ensures r == NonEmptyEntries(SubtractEntries(entries, covered))
  {
    var updated := entries;
    for j := 0 to |entries|
      invariant |updated| == |entries|
      invariant forall i :: 0 <= i < j ==> updated[i] == SubtractEntry(entries[i], covered)
      invariant forall i :: j <= i < |entries| ==> updated[i] == entries[i]
    {
      var ranges := SubtractLineRanges(updated[j].lineRanges, covered);
      updated := updated[j := updated[j].(lineRanges := ranges)];
    }
    assert updated == SubtractEntries(entries, covered);
    r := [];
    for j := 0 to |updated|
      invariant r == NonEmptyEntries(updated[..j])
    {
      assert updated[..j + 1][..j] == updated[..j];
      if updated[j].lineRanges != [] {
        r := r + [updated[j]];
      }
    }
    assert updated[..|updated|] == updated;
  }

  // ---------- metadata references ----------

  predicate StartsWith(s: string, prefix: string) {
    prefix <= s
  }

  datatype KeyKind = HumanKey | SessionKey | PromptKey

  function KindOf(key: string): KeyKind {
    if StartsWith(key, "h_") then HumanKey else if StartsWith(key, "s_") then SessionKey else PromptKey
  }

  lemma PrefixesDiffer(k: string)
    ensures !("h_" <= k && "s_" <= k)
  {
    if "h_" <= k {
      assert k[0] == 'h';
    }
  }

  ghost predicate EntriesHave(entries: seq<AttestationEntry>, h: string) {
    exists j :: 0 <= j < |entries| && entries[j].hash == h
  }

  ghost predicate HasHash(atts: seq<FileAttestation>, h: string) {
    exists i :: 0 <= i < |atts| && EntriesHave(atts[i].entries, h)
  }

  /** Some attestation entry refers to the record stored under `key`. */
  ghost predicate KeyUsed(atts: seq<FileAttestation>, key: string) {
    exists h :: HasHash(atts, h) && MetadataKey(h) == key
  }

  function EntryKeys(entries: seq<AttestationEntry>): set<string> {
    if entries == [] then {}
    else EntryKeys(entries[..|entries| - 1]) + {MetadataKey(entries[|entries| - 1].hash)}
  }

  function UsedKeys(atts: seq<FileAttestation>): set<string> {
    if atts == [] then {} else UsedKeys(atts[..|atts| - 1]) + EntryKeys(atts[|atts| - 1].entries)
  }

  lemma {:induction false} EntryKeysMeaning(entries: seq<AttestationEntry>, key: string)
    ensures key in EntryKeys(entries) <==> exists h :: EntriesHave(entries, h) && MetadataKey(h) == key
  {
    if entries != [] {
      var n := |entries| - 1;
      EntryKeysMeaning(entries[..n], key);
      assert forall j :: 0 <= j < n ==> entries[..n][j] == entries[j];
      assert forall h :: EntriesHave(entries, h) <==> EntriesHave(entries[..n], h) || entries[n].hash == h;
    }
  }

  lemma {:induction false} UsedKeysMeaning(atts: seq<FileAttestation>, key: string)
    ensures key in UsedKeys(atts) <==> KeyUsed(atts, key)
  {
    if atts != [] {
      var n := |atts| - 1;
      UsedKeysMeaning(atts[..n], key);
      EntryKeysMeaning(atts[n].entries, key);
      assert forall i :: 0 <= i < n ==> atts[..n][i] == atts[i];
      assert forall h :: HasHash(atts, h) <==> HasHash(atts[..n], h) || EntriesHave(atts[n].entries, h);
    }
  }

  function Retain<V>(m: map<string, V>, keys: set<string>, kind: KeyKind): map<string, V> {
    map k | k in m && k in keys && KindOf(k) == kind :: m[k]
  }

  function Retained(m: Metadata, keys: set<string>): Metadata {
    m.(prompts := Retain(m.prompts, keys, PromptKey),
       humans := Retain(m.humans, keys, HumanKey),
       sessions := Retain(m.sessions, keys, SessionKey))
  }

  function OfKind(keys: set<string>, kind: KeyKind): set<string> {
    set k | k in keys && KindOf(k) == kind
  }

  /** The three key sets that `retain_referenced_metadata` fills. */
  datatype KeySets = KeySets(prompts: set<string>, humans: set<string>, sessions: set<string>) {

    ghost predicate Split(keys: set<string>) {
      prompts == OfKind(keys, PromptKey) && humans == OfKind(keys, HumanKey) && sessions == OfKind(keys, SessionKey)
    }

    function Insert(key: string): KeySets {
      if StartsWith(key, "h_") then this.(humans := humans + {key})
      else if StartsWith(key, "s_") then this.(sessions := sessions + {key})
      else this.(prompts := prompts + {key})
    }
  }

  lemma InsertSplits(sets: KeySets, keys: set<string>, key: string)
    requires sets.Split(keys)
    ensures sets.Insert(key).Split(keys + {key})
  {
  }

  method CollectEntryKeys(sets: KeySets, ghost keys: set<string>, entries: seq<AttestationEntry>) returns (r: KeySets)
    requires sets.Split(keys)
    ensures r.Split(keys + EntryKeys(entries))
  {
    r := sets;
    for j := 0 to |entries|
      invariant r.Split(keys + EntryKeys(entries[..j]))
    {
      assert entries[..j + 1][..j] == entries[..j];
      var key := MetadataKey(entries[j].hash);
      InsertSplits(r, keys + EntryKeys(entries[..j]), key);
      assert keys + EntryKeys(entries[..j + 1]) == keys + EntryKeys(entries[..j]) + {key};
      r := r.Insert(key);
    }
    assert entries[..|entries|] == entries;
  }

  method CollectKeys(atts: seq<FileAttestation>) returns (sets: KeySets)
    ensures sets.Split(UsedKeys(atts))
  {
    sets := KeySets({}, {}, {});
    for i := 0 to |atts|
      invariant sets.Split(UsedKeys(atts[..i]))
    {
      assert atts[..i + 1][..i] == atts[..i];
      sets := CollectEntryKeys(sets, UsedKeys(atts[..i]), atts[i].entries);
    }
    assert atts[..|atts|] == atts;
  }

  method RetainReferencedMetadata(log: AuthorshipLog)
    modifies log`metadata
    ensures log.metadata == Retained(old(log.metadata), UsedKeys(log.attestations))
  {
    var sets := CollectKeys(log.attestations);
    var m := log.metadata;
    log.metadata := m.(prompts := map k | k in m.prompts && k in sets.prompts :: m.prompts[k],
                       humans := map k | k in m.humans && k in sets.humans :: m.humans[k],
                       sessions := map k | k in m.sessions && k in sets.sessions :: m.sessions[k]);
    assert log.metadata.prompts == Retain(m.prompts, UsedKeys(log.attestations), PromptKey);
    assert log.metadata.humans == Retain(m.humans, UsedKeys(log.attestations), HumanKey);
    assert log.metadata.sessions == Retain(m.sessions, UsedKeys(log.attestations), SessionKey);
  }

  function FilteredLog(resolution: Log, existing: Log): Log {
    var atts := FilterFiles(resolution.attestations, existing.attestations);
    Log(atts, Retained(resolution.metadata, UsedKeys(atts)))
  }

  method FilterAttestations(atts: seq<FileAttestation>, existing: seq<FileAttestation>)
    returns (kept: seq<FileAttestation>)
    ensures kept == FilterFiles(atts, existing)
  {
    var coverage := LineCoverageByFile(existing);
    kept := [];
    for i := 0 to |atts|
      invariant kept == FilterFiles(atts[..i], existing)
    {
      assert atts[..i + 1][..i] == atts[..i];
      var covered := Lookup(coverage, atts[i].path);
      var entries := FilterEntries(atts[i].entries, covered);
      assert atts[i].(entries := entries) == FilterFile(atts[i], existing);
      if entries != [] {
        kept := kept + [atts[i].(entries := entries)];
      }
    }
    assert atts[..|atts|] == atts;
  }

  /** Subtracts the other log's coverage from every entry, then drops what became empty. */
  method FilterResolutionLog(resolution: AuthorshipLog, shifted: AuthorshipLog)
    requires resolution != shifted
    modifies resolution
    ensures resolution.Value() == FilteredLog(old(resolution.Value()), shifted.Value())
  {
    resolution.attestations := FilterAttestations(resolution.attestations, shifted.attestations);
    RetainReferencedMetadata(resolution);
  }

  // ---------- merging attestations ----------

  function EntryIndex(entries: seq<AttestationEntry>, h: string): (k: nat)
    ensures k <= |entries|
    ensures k < |entries| ==> entries[k].hash == h
    ensures forall j :: 0 <= j < k ==> entries[j].hash != h
  {
    if entries == [] then 0 else if entries[0].hash == h then 0
    else
      var k := EntryIndex(entries[1..], h);
      assert forall j :: 1 <= j < |entries| ==> entries[j] == entries[1..][j - 1];
      1 + k
  }

  function MergeEntry(entries: seq<AttestationEntry>, e: AttestationEntry): seq<AttestationEntry> {
    var k := EntryIndex(entries, e.hash);
    if k < |entries|
    then entries[k := entries[k].(lineRanges := Normalize(entries[k].lineRanges + e.lineRanges))]
    else entries + [e.(lineRanges := Normalize(e.lineRanges))]
  }

  function MergeEntries(entries: seq<AttestationEntry>, source: seq<AttestationEntry>): seq<AttestationEntry> {
    if source == [] then entries
    else MergeEntry(MergeEntries(entries, source[..|source| - 1]), source[|source| - 1])
  }

  function MergeFile(atts: seq<FileAttestation>, file: FileAttestation): seq<FileAttestation> {
    var all := WithFile(atts, file.path);
    var k := FileIndex(all, file.path);
    all[k := all[k].(entries := MergeEntries(all[k].entries, file.entries))]
  }

  function MergeFiles(atts: seq<FileAttestation>, source: seq<FileAttestation>): seq<FileAttestation> {
    if source == [] then atts
    else MergeFile(MergeFiles(atts, source[..|source| - 1]), source[|source| - 1])
  }

  lemma MergeEntryClaim(entries: seq<AttestationEntry>, e: AttestationEntry, h: string, l: Line)
    ensures EntriesClaim(MergeEntry(entries, e), h, l) <==> EntriesClaim(entries, h, l) || EntryClaims(e, h, l)
  {
    var k := EntryIndex(entries, e.hash);
    if k < |entries| {
      var merged := entries[k].lineRanges + e.lineRanges;
      NormalizeMeaning(merged);
      InRangesConcat(entries[k].lineRanges, e.lineRanges, l);
      var all := MergeEntry(entries, e);
      assert forall j :: 0 <= j < |entries| && j != k ==> all[j] == entries[j];
      assert EntryClaims(all[k], h, l) <==> EntryClaims(entries[k], h, l) || EntryClaims(e, h, l);
    } else {
      NormalizeMeaning(e.lineRanges);
      EntriesClaimSnoc(entries, e.(lineRanges := Normalize(e.lineRanges)), h, l);
    }
  }

  lemma {:induction false} MergeEntriesClaim(
    entries: seq<AttestationEntry>, source: seq<AttestationEntry>, h: string, l: Line)
    ensures EntriesClaim(MergeEntries(entries, source), h, l) <==>
            EntriesClaim(entries, h, l) || EntriesClaim(source, h, l)
  {
    if source != [] {
      var n := |source| - 1;
      MergeEntriesClaim(entries, source[..n], h, l);
      MergeEntryClaim(MergeEntries(entries, source[..n]), source[n], h, l);
      EntriesClaimSnoc(source[..n], source[n], h, l);
      assert source == source[..n] + [source[n]];
    }
  }

  lemma MergeFileClaim(atts: seq<FileAttestation>, file: FileAttestation, f: string, h: string, l: Line)
    ensures Claims(MergeFile(atts, file), f, h, l) <==>
            Claims(atts, f, h, l) || (file.path == f && EntriesClaim(file.entries, h, l))
  {
    var all := WithFile(atts, file.path);
    var k := FileIndex(all, file.path);
    WithFileClaims(atts, file.path, f, h, l);
    MergeEntriesClaim(all[k].entries, file.entries, h, l);
    ClaimsUpdate(all, k, MergeEntries(all[k].entries, file.entries), f, h, l);
    assert f == file.path && EntriesClaim(all[k].entries, h, l) ==> Claims(all, f, h, l);
  }

  /** Merging attestations is union of claims, whatever duplicates either side holds. */
  lemma {:induction false} MergeFilesClaim(
    atts: seq<FileAttestation>, source: seq<FileAttestation>, f: string, h: string, l: Line)
    ensures Claims(MergeFiles(atts, source), f, h, l) <==> Claims(atts, f, h, l) || Claims(source, f, h, l)
  {
    if source != [] {
      var n := |source| - 1;
      MergeFilesClaim(atts, source[..n], f, h, l);
      MergeFileClaim(MergeFiles(atts, source[..n]), source[n], f, h, l);
      ClaimsSnoc(source[..n], source[n], f, h, l);
      assert source == source[..n] + [source[n]];
    }
  }

  method MergeOneEntry(entries: seq<AttestationEntry>, e: AttestationEntry) returns (r: seq<AttestationEntry>)
    ensures r == MergeEntry(entries, e)
  {
    var k := EntryIndex(entries, e.hash);
    if k < |entries| {
      var ranges := NormalizeLineRanges(entries[k].lineRanges + e.lineRanges);
      r := entries[k := entries[k].(lineRanges := ranges)];
    } else {
      var ranges := NormalizeLineRanges(e.lineRanges);
      r := entries + [e.(lineRanges := ranges)];
    }
  }

  method MergeEntryList(entries: seq<AttestationEntry>, source: seq<AttestationEntry>)
    returns (r: seq<AttestationEntry>)
    ensures r == MergeEntries(entries, source)
  {
    r := entries;
    for j := 0 to |source|
      invariant r == MergeEntries(entries, source[..j])
    {
      assert source[..j + 1][..j] == source[..j];
      r := MergeOneEntry(r, source[j]);
    }
    assert source[..|source|] == source;
  }

  method MergeFileAttestations(target: AuthorshipLog, source: seq<FileAttestation>)
    modifies target`attestations
    ensures target.attestations == MergeFiles(old(target.attestations), source)
  {
    ghost var before := target.attestations;
    for i := 0 to |source|
      invariant target.attestations == MergeFiles(before, source[..i])
    {
      assert source[..i + 1][..i] == source[..i];
      ghost var sofar := target.attestations;
      var k := target.GetOrCreateFile(source[i].path);
      var entries := MergeEntryList(target.attestations[k].entries, source[i].entries);
      target.attestations := target.attestations[k := target.attestations[k].(entries := entries)];
      assert target.attestations == MergeFile(sofar, source[i]);
    }
    assert source[..|source|] == source;
  }

  // ---------- merging metadata ----------

  function MergedSession(target: Sessions, source: Sessions, k: string): SessionRecord
    requires k in target || k in source
  {
    if k !in target then source[k] else if k in source then target[k].Merged(source[k]) else target[k]
  }

  function MergeSessions(target: Sessions, source: Sessions): Sessions {
    map k | k in target.Keys + source.Keys :: MergedSession(target, source, k)
  }

  function MergeMetadata(target: Metadata, source: Metadata): Metadata {
    target.(prompts := source.prompts + target.prompts,
            humans := source.humans + target.humans,
            sessions := MergeSessions(target.sessions, source.sessions))
  }

  /** `entry(key).or_insert_with(...)` for every key of `source`, in any order. */
  method InsertMissing<V>(target: map<string, V>, source: map<string, V>) returns (r: map<string, V>)
    ensures r == source + target
  {
    r := target;
    var todo := source.Keys;
    while todo != {}
      invariant todo <= source.Keys
      invariant r == (source - todo) + target
      decreases todo
    {
      var k :| k in todo;
      if k !in r {
        r := r[k := source[k]];
      }
      todo := todo - {k};
    }
    assert source - {} == source;
  }

  method MergeSessionRecord(sessions: Sessions, k: string, record: SessionRecord) returns (r: SessionRecord)
    ensures r == if k in sessions then sessions[k].Merged(record) else record
  {
    r := record;
    if k in sessions {
      r := MergeFrom(sessions[k], record);
    }
  }

  method MergeSessionRecords(target: Sessions, source: Sessions) returns (r: Sessions)
    ensures r == MergeSessions(target, source)
  {
    r := target;
    var todo := source.Keys;
    while todo != {}
      invariant todo <= source.Keys
      invariant r.Keys == target.Keys + (source.Keys - todo)
      invariant forall k :: k in r ==> r[k] == if k in todo then target[k] else MergedSession(target, source, k)
      decreases todo
    {
      var k :| k in todo;
      var record := MergeSessionRecord(r, k, source[k]);
      r := r[k := record];
      todo := todo - {k};
    }
  }

  method MergeAuthorshipMetadata(target: AuthorshipLog, source: Metadata)
    modifies target`metadata
    ensures target.metadata == MergeMetadata(old(target.metadata), source)
  {
    var m := target.metadata;
    var prompts := InsertMissing(m.prompts, source.prompts);
    var humans := InsertMissing(m.humans, source.humans);
    var sessions := MergeSessionRecords(m.sessions, source.sessions);
    target.metadata := m.(prompts := prompts, humans := humans, sessions := sessions);
  }

  // ---------- the whole merge ----------

  function NewLog(version: string): Log {
    Log([], Metadata(AUTHORSHIP_LOG_VERSION, Some(version), "", map[], map[], map[]))
  }

  function Merge(existing: Log, resolution: Log, commitSha: string): Log {
    var rest := FilteredLog(resolution, existing);
    Log(MergeFiles(existing.attestations, rest.attestations),
        MergeMetadata(existing.metadata, rest.metadata).(baseCommitSha := commitSha))
  }

  /** Both logs are owned by the call: it reuses the existing log, if any, as the result. */
  method MergeConflictResolutionAuthorship(
    existing: AuthorshipLog?, resolution: AuthorshipLog, commitSha: string, version: string)
    returns (merged: AuthorshipLog)
    requires existing != resolution
    modifies resolution, if existing == null then {} else {existing}
    ensures merged.Value() ==
            Merge(if existing == null then NewLog(version) else old(existing.Value()),
                  old(resolution.Value()), commitSha)
  {
    if existing == null {
      merged := new AuthorshipLog(NewLog(version));
    } else {
      merged := existing;
    }
    FilterResolutionLog(resolution, merged);
    MergeFileAttestations(merged, resolution.attestations);
    MergeAuthorshipMetadata(merged, resolution.metadata);
    merged.metadata := merged.metadata.(baseCommitSha := commitSha);
  }

  /** The merge is an exact overlay: the existing claims, plus precisely the resolution's
      claims on lines the existing log leaves uncovered. */
  lemma MergeIsOverlay(existing: Log, resolution: Log, commitSha: string, f: string, h: string, l: Line)
    ensures Claims(Merge(existing, resolution, commitSha).attestations, f, h, l) <==>
            Claims(existing.attestations, f, h, l) ||
            (Claims(resolution.attestations, f, h, l) && !Covered(existing.attestations, f, l))
  {
    var rest := FilterFiles(resolution.attestations, existing.attestations);
    FilterFilesClaim(resolution.attestations, existing.attestations, f, h, l);
    MergeFilesClaim(existing.attestations, rest, f, h, l);
  }

  /** Covered lines keep exactly their authors, and coverage is the union of both coverages. */
  lemma MergeCoverage(existing: Log, resolution: Log, commitSha: string, f: string, l: Line)
    ensures var merged := Merge(existing, resolution, commitSha).attestations;
            && (Covered(merged, f, l) <==>
                Covered(existing.attestations, f, l) || Covered(resolution.attestations, f, l))
            && (Covered(existing.attestations, f, l) ==>
                  forall h :: Claims(merged, f, h, l) <==> Claims(existing.attestations, f, h, l))
  {
    var merged := Merge(existing, resolution, commitSha).attestations;
    forall h ensures Claims(merged, f, h, l) <==>
                     Claims(existing.attestations, f, h, l) ||
                     (Claims(resolution.attestations, f, h, l) && !Covered(existing.attestations, f, l))
    {
      MergeIsOverlay(existing, resolution, commitSha, f, h, l);
    }
    if Covered(resolution.attestations, f, l) && !Covered(existing.attestations, f, l) {
      var h :| Claims(resolution.attestations, f, h, l);
      assert Claims(merged, f, h, l);
    }
    if Covered(existing.attestations, f, l) {
      var h :| Claims(existing.attestations, f, h, l);
      assert Claims(merged, f, h, l);
    }
  }

  /** If neither log gives a line two authors, the merge does not either. */
  lemma MergeKeepsUnambiguous(existing: Log, resolution: Log, commitSha: string)
    requires Unambiguous(existing.attestations) && Unambiguous(resolution.attestations)
    ensures Unambiguous(Merge(existing, resolution, commitSha).attestations)
  {
    var merged := Merge(existing, resolution, commitSha).attestations;
    forall f, h1, h2, l: Line | Claims(merged, f, h1, l) && Claims(merged, f, h2, l) ensures h1 == h2 {
      MergeIsOverlay(existing, resolution, commitSha, f, h1, l);
      MergeIsOverlay(existing, resolution, commitSha, f, h2, l);
    }
  }

  /** A resolution whose lines are all covered leaves nothing: no entry, no record. */
  lemma {:induction false} FilterCoveredFiles(atts: seq<FileAttestation>, existing: seq<FileAttestation>)
    requires forall f, l: Line :: Covered(atts, f, l) ==> Covered(existing, f, l)
    ensures FilterFiles(atts, existing) == []
  {
    if atts != [] {
      var n := |atts| - 1;
      assert atts == atts[..n] + [atts[n]];
      forall f, h, l: Line ensures Claims(atts[..n], f, h, l) ==> Claims(atts, f, h, l) {
        ClaimsSnoc(atts[..n], atts[n], f, h, l);
      }
      forall f, l: Line | Covered(atts[..n], f, l) ensures Covered(existing, f, l) {
        var h :| Claims(atts[..n], f, h, l);
        assert Claims(atts, f, h, l);
      }
      FilterCoveredFiles(atts[..n], existing);
      FilterCoveredEntries(atts, n, existing);
    }
  }

  lemma FilterCoveredEntries(atts: seq<FileAttestation>, i: nat, existing: seq<FileAttestation>)
    requires i < |atts|
    requires forall f, l: Line :: Covered(atts, f, l) ==> Covered(existing, f, l)
    ensures FilterFile(atts[i], existing).entries == []
  {
    var file := atts[i];
    var cover := FileCover(existing, file.path);
    var rest := SubtractEntries(file.entries, cover);
    forall j | 0 <= j < |rest| ensures rest[j].lineRanges == [] {
      SubtractExact(file.entries[j].lineRanges, cover);
      forall l: Line | InRanges(file.entries[j].lineRanges, l) ensures InRanges(cover, l) {
        assert EntryClaims(file.entries[j], file.entries[j].hash, l);
        assert Claims(atts, file.path, file.entries[j].hash, l);
        FileCoverMeaning(existing, file.path, l);
      }
    }
    AllEmptyEntries(rest);
  }

  lemma {:induction false} AllEmptyEntries(entries: seq<AttestationEntry>)
    requires forall j :: 0 <= j < |entries| ==> entries[j].lineRanges == []
    ensures NonEmptyEntries(entries) == []
  {
    if entries != [] {
      AllEmptyEntries(entries[..|entries| - 1]);
    }
  }

  /** Merging the same resolution again, under the same commit, changes nothing at all. */
  lemma MergeIdempotent(existing: Log, resolution: Log, commitSha: string)
    ensures var merged := Merge(existing, resolution, commitSha);
            Merge(merged, resolution, commitSha) == merged
  {
    var merged := Merge(existing, resolution, commitSha);
    forall f, l: Line | Covered(resolution.attestations, f, l) ensures Covered(merged.attestations, f, l) {
      MergeCoverage(existing, resolution, commitSha, f, l);
    }
    FilterCoveredFiles(resolution.attestations, merged.attestations);
    MergeNothing(merged.metadata, resolution.metadata);
  }

  lemma MergeNothing(target: Metadata, source: Metadata)
    ensures MergeMetadata(target, Retained(source, {})) == target
  {
  }

  // ---------- what the merge does to metadata ----------

  /** The record an author id refers to is present. */
  ghost predicate Resolves(m: Metadata, h: string) {
    var key := MetadataKey(h);
    match KindOf(key)
    case HumanKey => key in m.humans
    case SessionKey => key in m.sessions
    case PromptKey => key in m.prompts
  }

  ghost predicate MetadataClosed(log: Log) {
    forall h :: HasHash(log.attestations, h) ==> Resolves(log.metadata, h)
  }

  lemma MergeEntryHave(entries: seq<AttestationEntry>, e: AttestationEntry, h: string)
    ensures EntriesHave(MergeEntry(entries, e), h) <==> EntriesHave(entries, h) || e.hash == h
  {
    var all := MergeEntry(entries, e);
    assert forall j :: 0 <= j < |entries| ==> all[j].hash == entries[j].hash;
    assert all[EntryIndex(entries, e.hash)].hash == e.hash;
  }

  lemma EntriesHaveSnoc(entries: seq<AttestationEntry>, e: AttestationEntry, h: string)
    ensures EntriesHave(entries + [e], h) <==> EntriesHave(entries, h) || e.hash == h
  {
    var all := entries + [e];
    assert forall j :: 0 <= j < |entries| ==> all[j] == entries[j];
    assert all[|entries|] == e;
  }

  lemma {:induction false} MergeEntriesHave(entries: seq<AttestationEntry>, source: seq<AttestationEntry>, h: string)
    ensures EntriesHave(MergeEntries(entries, source), h) <==> EntriesHave(entries, h) || EntriesHave(source, h)
  {
    if source != [] {
      var n := |source| - 1;
      MergeEntriesHave(entries, source[..n], h);
      MergeEntryHave(MergeEntries(entries, source[..n]), source[n], h);
      EntriesHaveSnoc(source[..n], source[n], h);
      assert source == source[..n] + [source[n]];
    }
  }

  lemma HasHashSnoc(atts: seq<FileAttestation>, file: FileAttestation, h: string)
    ensures HasHash(atts + [file], h) <==> HasHash(atts, h) || EntriesHave(file.entries, h)
  {
    var all := atts + [file];
    assert forall i :: 0 <= i < |atts| ==> all[i] == atts[i];
    assert all[|atts|] == file;
  }

  lemma MergeFileHave(atts: seq<FileAttestation>, file: FileAttestation, h: string)
    ensures HasHash(MergeFile(atts, file), h) <==> HasHash(atts, h) || EntriesHave(file.entries, h)
  {
    var all := WithFile(atts, file.path);
    var k := FileIndex(all, file.path);
    HasHashSnoc(atts, FileAttestation(file.path, []), h);
    MergeEntriesHave(all[k].entries, file.entries, h);
    var merged := MergeFile(atts, file);
    assert forall i :: 0 <= i < |all| && i != k ==> merged[i] == all[i];
    assert EntriesHave(merged[k].entries, h) <==> EntriesHave(all[k].entries, h) || EntriesHave(file.entries, h);
  }

  lemma {:induction false} MergeFilesHave(atts: seq<FileAttestation>, source: seq<FileAttestation>, h: string)
    ensures HasHash(MergeFiles(atts, source), h) <==> HasHash(atts, h) || HasHash(source, h)
  {
    if source != [] {
      var n := |source| - 1;
      MergeFilesHave(atts, source[..n], h);
      MergeFileHave(MergeFiles(atts, source[..n]), source[n], h);
      HasHashSnoc(source[..n], source[n], h);
      assert source == source[..n] + [source[n]];
    }
  }

  lemma {:induction false} NonEmptyEntriesHave(entries: seq<AttestationEntry>, h: string)
    ensures EntriesHave(NonEmptyEntries(entries), h) ==>
              exists j :: 0 <= j < |entries| && entries[j].hash == h && entries[j].lineRanges != []
  {
    if entries != [] {
      var n := |entries| - 1;
      NonEmptyEntriesHave(entries[..n], h);
      assert forall j :: 0 <= j < n ==> entries[..n][j] == entries[j];
    }
  }

  /** A surviving entry still has a line of its own. */
  lemma FilterFileHave(file: FileAttestation, existing: seq<FileAttestation>, h: string)
    requires EntriesHave(FilterFile(file, existing).entries, h)
    ensures exists l: Line :: EntriesClaim(FilterFile(file, existing).entries, h, l)
  {
    var cover := FileCover(existing, file.path);
    var rest := SubtractEntries(file.entries, cover);
    NonEmptyEntriesHave(rest, h);
    var j :| 0 <= j < |rest| && rest[j].hash == h && rest[j].lineRanges != [];
    SubtractExact(file.entries[j].lineRanges, cover);
    var l: Line :| InRanges(file.entries[j].lineRanges, l) && !InRanges(cover, l);
    assert EntryClaims(rest[j], h, l);
    NonEmptyEntriesClaim(rest, h, l);
  }

  lemma {:induction false} FilterFilesHave(atts: seq<FileAttestation>, existing: seq<FileAttestation>, h: string)
    requires HasHash(FilterFiles(atts, existing), h)
    ensures exists f, l: Line :: Claims(FilterFiles(atts, existing), f, h, l)
  {
    var n := |atts| - 1;
    var front, last := FilterFiles(atts[..n], existing), FilterFile(atts[n], existing);
    HasHashSnoc(front, last, h);
    if HasHash(front, h) {
      FilterFilesHave(atts[..n], existing, h);
      var f, l: Line :| Claims(front, f, h, l);
      ClaimsSnoc(front, last, f, h, l);
      assert Claims(FilterFiles(atts, existing), f, h, l);
    } else {
      FilterFileHave(atts[n], existing, h);
      var l: Line :| EntriesClaim(last.entries, h, l);
      ClaimsSnoc(front, last, last.path, h, l);
      assert Claims(FilterFiles(atts, existing), last.path, h, l);
    }
  }

  lemma {:induction false} FilterFilesKeepsHashes(atts: seq<FileAttestation>, existing: seq<FileAttestation>, h: string)
    requires HasHash(FilterFiles(atts, existing), h)
    ensures HasHash(atts, h)
  {
    FilterFilesHave(atts, existing, h);
    var f, l: Line :| Claims(FilterFiles(atts, existing), f, h, l);
    FilterFilesClaim(atts, existing, f, h, l);
    var i :| 0 <= i < |atts| && atts[i].path == f && EntriesClaim(atts[i].entries, h, l);
    assert EntriesHave(atts[i].entries, h);
  }

  /** If every author id resolves in both logs, every author id resolves in the merge. */
  lemma MergeKeepsMetadataClosed(existing: Log, resolution: Log, commitSha: string)
    requires MetadataClosed(existing) && MetadataClosed(resolution)
    ensures MetadataClosed(Merge(existing, resolution, commitSha))
  {
    var merged := Merge(existing, resolution, commitSha);
    var rest := FilteredLog(resolution, existing);
    forall h | HasHash(merged.attestations, h) ensures Resolves(merged.metadata, h) {
      MergeFilesHave(existing.attestations, rest.attestations, h);
      if !HasHash(existing.attestations, h) {
        FilterFilesKeepsHashes(resolution.attestations, existing.attestations, h);
        assert KeyUsed(rest.attestations, MetadataKey(h));
        UsedKeysMeaning(rest.attestations, MetadataKey(h));
        assert Resolves(rest.metadata, h);
      }
    }
  }

  /** `k` names the record of an author who gains a line in the merge. */
  ghost predicate GainsLine(existing: Log, resolution: Log, k: string) {
    exists f, h, l: Line ::
      MetadataKey(h) == k && Claims(resolution.attestations, f, h, l) && !Covered(existing.attestations, f, l)
  }

  /** Every record the merge adds comes from the resolution and belongs to an author who gains a line. */
  lemma MergeAddsOnlyReferenced(existing: Log, resolution: Log, commitSha: string, k: string)
    ensures var old', m := existing.metadata, resolution.metadata;
            var new' := Merge(existing, resolution, commitSha).metadata;
            && (k in new'.prompts && k !in old'.prompts ==>
                  GainsLine(existing, resolution, k) && k in m.prompts && new'.prompts[k] == m.prompts[k])
            && (k in new'.humans && k !in old'.humans ==>
                  GainsLine(existing, resolution, k) && k in m.humans && new'.humans[k] == m.humans[k])
            && (k in new'.sessions && k !in old'.sessions ==>
                  GainsLine(existing, resolution, k) && k in m.sessions && new'.sessions[k] == m.sessions[k])
  {
    var rest := FilteredLog(resolution, existing);
    UsedKeysMeaning(rest.attestations, k);
    if k in UsedKeys(rest.attestations) {
      var h :| HasHash(rest.attestations, h) && MetadataKey(h) == k;
      FilterFilesHave(resolution.attestations, existing.attestations, h);
      var f, l: Line :| Claims(rest.attestations, f, h, l);
      FilterFilesClaim(resolution.attestations, existing.attestations, f, h, l);
      assert GainsLine(existing, resolution, k);
    }
  }

  /** Existing records keep their identity: prompts and humans are untouched, a session keeps
      everything but may gain traces, and an author whose trace had a model keeps that model. */
  lemma MergeKeepsIdentities(existing: Log, resolution: Log, commitSha: string, author: string)
    ensures var m, new' := existing.metadata, Merge(existing, resolution, commitSha).metadata;
            && (forall k :: k in m.prompts ==> k in new'.prompts && new'.prompts[k] == m.prompts[k])
            && (forall k :: k in m.humans ==> k in new'.humans && new'.humans[k] == m.humans[k])
            && (forall k :: k in m.sessions ==> k in new'.sessions && new'.sessions[k].SameSession(m.sessions[k]))
            && var key, split := MetadataKey(author), SplitAuthor(author);
               (key in m.sessions && (split.None? || split.value.1 in m.sessions[key].traceModels) ==>
                  ResolveSession(new'.sessions, author) == ResolveSession(m.sessions, author))
  {
  }
}
