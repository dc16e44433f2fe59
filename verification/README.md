# git-ai line attribution: a verified model

git-ai records, per commit, which lines each author wrote. An authorship log holds, per file, entries of an author
id and line ranges, plus metadata maps that say who the author ids are. This project models the code that computes
with such logs, and a few self-contained protocols and decoders around it, and proves what they promise for every
input, every run and every answer of the outside world.

The meaning of a log is one relation, `Claims(attestations, file, author, line)`. The nested loops over files,
entries and ranges are proved to refine plain equations on that relation.

| file | models |
|---|---|
| `Basics.dfy` | types and character functions that the others share |
| `LineRanges.dfy` | line ranges: removal, expansion, compression, normal form, subtraction |
| `AuthorshipLogs.dfy` | author ids, session records, pruning, the log and its claims |
| `ConflictResolution.dfy` | overlaying a conflict-resolution log on a shifted log |
| `ConflictMetadata.dfy` | what the merged log holds: records, traces, identities, the form of entries |
| `UnknownLines.dfy` | committed lines without an author |
| `BackgroundAgents.dfy` | filling the holes of a commit by an agent without hooks |
| `Selection.dfy` | Bash-call and session-event selectors |
| `SelectionMeaning.dfy` | what those selectors pick, in terms of calls, events and timestamps alone |
| `LogSessions.dfy` | the sessions of a log that a detected agent matches |
| `CommitSelection.dfy` | the session behind a commit's metadata, with a fallible metrics database |
| `NewestTimestamps.dfy` | the newest timestamps of the files with unknown lines |
| `RecoveryTrail.dfy` | the effect of recovery as the replay of its claims |
| `Recovery.dfy` | the logical filter and the three stages of recovery |
| `RecoveryPipeline.dfy` | the recovery pipeline and what every run of it guarantees |
| `MarkerScan.dfy` | finding an agent's name in an identity |
| `Base64Url.dfy` | the streaming base64url decoder |
| `Utf8.dfy` | UTF-8 and its lossy decoding |
| `GitPaths.dfy` | unquoting Git paths |
| `ConfigProtocol.dfy` | locked read-modify-write of the shared config file |
| `ConfigTransactions.dfy` | what each config write carries, and that saves and guarded updates take effect |
| `PluginHooks.dfy` | the OpenCode plugin's pre- and post-tool hooks |
| `PluginCalls.dfy` | what those hooks send for one tool call, independently of other calls |
| `TokenRefresh.dfy` | double-checked token refresh |
| `TokenAnswers.dfy` | which token a call returns |

`dafny verify dfyconfig.toml` checks everything.

How the outside world appears: what git, the databases, the file system, the clock and the id generators answer is a
parameter (`Evidence`, `CommitEvidence`, the step lists of the state machines), so every result quantifies over it.
A `u32` line and a `u128` timestamp are bounded integer types; `compress_lines` adds with wrap-around, as the release
build does. Iteration over a hash or tree map picks the next key arbitrarily, so the results hold for any order. Logs
are objects with value fields that the methods reassign; a session record is a value inside the log's map, so the
methods that update one return the new record.

Results about the code that differ from a first reading of it:

- `compress_lines` does not need sorted input: expanding its result gives any list back, exactly unless the largest
  `u32` is directly followed by 0 (`LineRanges.CompressRoundTrip`).
- The skipping marker scan is exact for precisely the non-empty markers none of whose self-overlaps starts after a
  character that is neither letter nor digit (`MarkerScan.ScanEqualsContainsWord`); an unsafe marker has a concrete
  text on which it is missed (`MarkerScan.UnsafeMarkerMissed`). With an empty marker the loop runs for ever on every
  text that starts with a letter or a digit (`MarkerScan.ScanTerminates`). All markers in use are safe.
- Unquoting inverts Git's quoting for precisely the UTF-8 paths without BEL, BS, VT and FF, although the documentation
  of the function lists escapes with "etc." (`GitPaths.UnescapeInvertsQuote`); a lone quote makes it panic
  (`GitPaths.UnescapeTotal`).
- The base64url decoder also accepts texts that no encoder produces (`Base64Url.EncodeInvertsDecode` says which).
- An author id splits back into its session and trace exactly if the session id has no `::` and does not end in `:`
  (`AuthorshipLogs.AuthorIdRoundTrip`).
- The window check after the Bash selector can never reject a pick (`Selection.RecoveryDistanceSupports`).
- Filling holes replaces an older session record under the same key, and with it the identities it gave
  (`BackgroundAgents.FillIdentities` says whose).
- Saving a config built from an earlier unlocked read acts like a locked update exactly if every field it leaves
  alone is still as read (`ConfigProtocol.StaleSaveIsUpdate`).

## Model

| member | source | states |
|---|---|---|
| LineRanges.RemoveIsDifference | src/authorship/authorship_log.rs:41-91 | removing a range is set difference on lines, degenerate ranges included; every bound built fits `u32` |
| LineRanges.ExpandAllMeaning | src/authorship/authorship_log.rs:129-134 | expansion lists exactly the lines some range contains |
| LineRanges.CompressLines | src/authorship/authorship_log.rs:94-126 | the single pass computes the specified compression |
| LineRanges.CompressRoundTrip | src/authorship/authorship_log.rs:94-134 | expanding the compressed form gives the list back, for any list, if and only if it has no wrap-around pair |
| LineRanges.IncreasingNeverOverflows | src/authorship/authorship_log.rs:104 | in a strictly increasing list the successor never overflows |
| LineRanges.CompressMeaning | src/authorship/authorship_log.rs:94-126 | compressing a sorted list, duplicates included, keeps its set of lines |
| LineRanges.CompressCanonical | src/authorship/authorship_log.rs:94-126 | a strictly increasing list compresses to ordered proper ranges with gaps between them |
| LineRanges.CanonicalUnique | src/authorship/authorship_log.rs:94-126 | two canonical lists with the same lines are equal |
| LineRanges.CanonicalMinimal | src/authorship/authorship_log.rs:94-126 | no range list for the same lines is shorter than the canonical one |
| LineRanges.NormalizeLineRanges | src/authorship/conflict_resolution.rs:6-11 | the method computes the specified normal form |
| LineRanges.NormalizeMeaning | src/authorship/conflict_resolution.rs:6-11 | the normal form keeps the lines, is canonical, and is empty only for no lines |
| LineRanges.NormalizeCanonical | src/authorship/conflict_resolution.rs:6-11 | equal line sets have equal normal forms, of minimal length |
| LineRanges.SubtractLineRanges | src/authorship/conflict_resolution.rs:13-25 | the loop with its early exit computes the full iterated removal, normalised |
| LineRanges.SubtractExact | src/authorship/conflict_resolution.rs:13-25 | subtraction is the canonical form of the set difference, for any ranges and any cover |
| AuthorshipLogs.AuthorIdRoundTrip | src/authorship/authorship_log.rs:232 | an author id splits back into session and trace exactly for splittable session ids |
| AuthorshipLogs.MergeFrom | src/authorship/authorship_log.rs:247-251 | inserting the other record's traces one by one is the union in which the receiver wins |
| AuthorshipLogs.MergedKeepsIdentity | src/authorship/authorship_log.rs:230-251 | what every author resolves to after a merge; the conversation identity is unchanged |
| AuthorshipLogs.CollectReferences | src/authorship/authorship_log.rs:259-264 | the map holds exactly the traces the author ids refer to, by session |
| AuthorshipLogs.RetainReferencedTraceModels | src/authorship/authorship_log.rs:255-272 | each session keeps exactly its referenced trace models |
| AuthorshipLogs.PruningPreservesIdentity | src/authorship/authorship_log.rs:230-272 | pruning keeps an author's identity if and only if its trace had no different model or is referenced |
| AuthorshipLogs.PruningIsSafe | src/authorship/authorship_log.rs:255-272 | every listed author keeps its identity, and pruning is idempotent |
| AuthorshipLogs.AuthorshipLog.GetOrCreateFile | src/authorship/authorship_log_serialization.rs:148-162 | the first attestation of the path, created empty at the end if absent |
| AuthorshipLogs.AuthorshipLog.AddEntry | src/authorship/authorship_log_serialization.rs:119-121 | the entry is appended to the first attestation of the path |
| AuthorshipLogs.WithEntryClaims | src/authorship/authorship_log_serialization.rs:119-162 | appending an entry adds exactly its claims |
| ConflictResolution.LineCoverageByFile | src/authorship/conflict_resolution.rs:27-39 | per file, the normalised cover of all its attestations |
| ConflictResolution.FileCoverMeaning | src/authorship/conflict_resolution.rs:27-39 | that cover contains exactly the covered lines |
| ConflictResolution.RetainReferencedMetadata | src/authorship/conflict_resolution.rs:45-72 | each map keeps exactly the records whose key is used and of the map's kind |
| ConflictResolution.UsedKeysMeaning | src/authorship/conflict_resolution.rs:41-61 | the collected keys are exactly those of the author ids in the log |
| ConflictResolution.FilterResolutionLog | src/authorship/conflict_resolution.rs:74-98 | the in-place filter computes the specified filtered log |
| ConflictResolution.FilterFilesClaim | src/authorship/conflict_resolution.rs:74-95 | exactly the claims on lines the shifted log leaves uncovered survive |
| ConflictResolution.FilterFilesHave | src/authorship/conflict_resolution.rs:85-95 | every surviving author id still claims a line |
| ConflictResolution.MergeFileAttestations | src/authorship/conflict_resolution.rs:100-120 | the nested loops compute the specified merge of attestations |
| ConflictResolution.MergeFilesClaim | src/authorship/conflict_resolution.rs:100-120 | merging attestations is union of claims, duplicates or not |
| ConflictResolution.MergeAuthorshipMetadata | src/authorship/conflict_resolution.rs:122-145 | target records win; shared sessions merge their traces |
| ConflictResolution.MergeConflictResolutionAuthorship | src/authorship/conflict_resolution.rs:147-159 | the whole merge computes the specified log, from an empty one if none exists |
| ConflictResolution.MergeIsOverlay | src/authorship/conflict_resolution.rs:74-159 | the merge holds the existing claims plus exactly the resolution's claims on uncovered lines |
| ConflictResolution.MergeCoverage | src/authorship/conflict_resolution.rs:74-159 | coverage is the union; covered lines keep exactly their authors |
| ConflictResolution.MergeKeepsUnambiguous | src/authorship/conflict_resolution.rs:147-159 | one author per line in both inputs gives one author per line in the result |
| ConflictResolution.MergeIdempotent | src/authorship/conflict_resolution.rs:45-159 | merging the same resolution again under the same commit returns the identical log |
| ConflictResolution.MergeKeepsMetadataClosed | src/authorship/conflict_resolution.rs:41-145 | if every author id resolves in both inputs, every author id resolves in the result |
| ConflictResolution.MergeAddsOnlyReferenced | src/authorship/conflict_resolution.rs:63-144 | each added record comes from the resolution and belongs to an author who gains a line |
| ConflictResolution.MergeKeepsIdentities | src/authorship/conflict_resolution.rs:122-145 | existing records keep their identity; an author whose trace had a model keeps it |
| ConflictMetadata.MergedRecords | src/authorship/conflict_resolution.rs:45-159 | which prompts, humans and sessions the merge holds, both directions, with the `h_` and `s_` prefixes spelled out; where both logs have a record the existing one stays; of the header only the commit id changes |
| ConflictMetadata.MergedSessions | src/authorship/conflict_resolution.rs:136-144 | a shared session keeps the existing identity and holds exactly the traces of both logs, the existing model first |
| ConflictMetadata.GainedAuthorResolves | src/authorship/conflict_resolution.rs:122-159 | an author who gains a line resolves to what the resolution gave it, or, if the existing log had its session, to that session's tool and id with the shared model |
| ConflictMetadata.MergeFilesGrow | src/authorship/conflict_resolution.rs:100-120 | existing files and entries keep their places, and every entry written has canonical ranges |
| ConflictMetadata.MergeFilesOnce | src/authorship/conflict_resolution.rs:100-120 | one file per path and one entry per author stay so, whatever is merged in |
| ConflictMetadata.MergeIntoNothing | src/authorship/conflict_resolution.rs:147-159 | without an existing log the merge holds exactly the resolution's claims, in a new log |
| UnknownLines.CoveredLinesByFile | src/authorship/attribution_recovery.rs:1837-1850 | the sets hold exactly the covered lines of each file |
| UnknownLines.UnknownLinesByFile | src/authorship/attribution_recovery.rs:1814-1835 | exactly the committed lines without an author, sorted, and no file without one |
| BackgroundAgents.UnattributedHunks | src/authorship/background_agent.rs:114-148 | ranges for exactly the committed lines not yet attributed |
| BackgroundAgents.FillUnattributedLines | src/authorship/background_agent.rs:100-176 | applied exactly if an agent without hooks meets an unknown line; then one new author gets exactly the unknown lines |
| BackgroundAgents.FillClosesHoles | src/authorship/background_agent.rs:96-99 | every committed line ends covered; lines with authors keep exactly them |
| BackgroundAgents.SecondFillIsNoop | src/authorship/background_agent.rs:146-148 | a second run returns false and leaves the log as it was, whatever agent, author, session and trace it would use |
| BackgroundAgents.FillIdentities | src/authorship/background_agent.rs:150-168 | the new record field by field, other sessions unchanged, and which author ids keep their identity when a record is replaced, both directions |
| Selection.MinByIsMinimum | src/authorship/attribution_recovery.rs:1524-1544 | the lexicographic minimum exists for a non-empty list, is a member, and nothing is below it |
| Selection.MinByOrderIndependent | src/authorship/attribution_recovery.rs:1524-1544 | with distinct keys the minimum does not depend on order |
| Selection.RecoveryDistanceSupports | src/authorship/attribution_recovery.rs:1701-1723 | a distance exists exactly for a timestamp in the window or a whole second less than 1 s early, and is within the window |
| Selection.CallDistanceMeaning | src/authorship/attribution_recovery.rs:1514-1517 | a call's distance is the least over the supporting timestamps |
| Selection.BashKeyOrders | src/authorship/attribution_recovery.rs:1524-1544 | the comparison chain, link by link |
| Selection.SelectBestBashIsArgmin | src/authorship/attribution_recovery.rs:1489-1545 | none exactly if no call has evidence (exact worktree, not zcode, a supporting timestamp); otherwise no eligible selection is better |
| SelectionMeaning.CallDistanceIsMinimum | src/authorship/attribution_recovery.rs:1701-1723 | the distance of a supporting timestamp is the true point-to-interval minimum to the call's window |
| SelectionMeaning.BashPickMeaning | src/authorship/attribution_recovery.rs:1489-1599 | in terms of the calls alone: none exactly without evidence, otherwise a call to which no other with evidence is preferred (session in the commit, then nearer, finished, with a command, later id), at its true distance |
| SelectionMeaning.OutsidePickMeansNoneInside | src/authorship/attribution_recovery.rs:1593-1597 | a pick of a session outside the commit means that no call with evidence is of one in it |
| Selection.SelectBestBashOrderIndependent | src/authorship/attribution_recovery.rs:1489-1545 | with distinct ids the pick is the same for any order of candidates |
| Selection.EventDistanceIsMinimum | src/authorship/attribution_recovery.rs:1691-1699 | the true minimum distance to the event's second |
| Selection.EventDistanceMeaning | src/authorship/attribution_recovery.rs:1681-1689 | the least distance over the timestamps; none exactly without timestamps |
| Selection.SelectBestEventIsArgmin | src/authorship/attribution_recovery.rs:1605-1646 | none exactly if no event has evidence; otherwise no eligible selection is better |
| SelectionMeaning.EventPickMeaning | src/authorship/attribution_recovery.rs:1605-1699 | in terms of the events alone: none exactly without evidence, otherwise an event with evidence than which none is nearer, or as near in a later row, at its true distance |
| Selection.SelectBestEventOrderIndependent | src/authorship/attribution_recovery.rs:1605-1646 | with distinct row ids the pick is the same for any order of candidates |
| LogSessions.MatchesToolMeaning | src/authorship/attribution_recovery.rs:1446-1450 | an agent matches a tool if one of its tool names is the same up to ASCII case |
| LogSessions.AttestedLineCountPositive | src/authorship/attribution_recovery.rs:1244-1252 | a session counts exactly if one of its authors has a line |
| LogSessions.AttestedLineCountCounts | src/authorship/attribution_recovery.rs:1244-1252 | the count is the number of places where a line stands in a range of an entry of the session |
| LogSessions.SpotsMeaning | src/authorship/attribution_recovery.rs:1244-1252 | which places those are |
| LogSessions.SelectExisting | src/authorship/attribution_recovery.rs:1171-1214 | the best matching session of the log, or none exactly if none matches |
| LogSessions.BestExistingUnique | src/authorship/attribution_recovery.rs:1182-1190 | there is one best session, whatever the map order |
| LogSessions.BestExistingMeaning | src/authorship/attribution_recovery.rs:1182-1190 | no match of an earlier detection, none of the same one with more lines, none with as many whose id precedes |
| CommitSelection.ScanNearest | src/authorship/attribution_recovery.rs:1291-1343 | the replacing loop computes the minimum over the eligible rows |
| CommitSelection.BestNearestIsArgmin | src/authorship/attribution_recovery.rs:1298-1343 | in terms of the rows alone: none exactly if no row has evidence, otherwise a row to which no other is preferred (earlier detection, same repository, nearer, later row), at its true distance |
| CommitSelection.BestNearestOrderIndependent | src/authorship/attribution_recovery.rs:1298-1343 | with distinct row ids the result does not depend on the order of rows |
| CommitSelection.BestLatestIsArgmin | src/authorship/attribution_recovery.rs:1375-1390 | in terms of the rows alone: none exactly if all are of another repository, otherwise a row to which no other is preferred (same repository, later event, later row) |
| CommitSelection.BestLatestOrderIndependent | src/authorship/attribution_recovery.rs:1375-1390 | with distinct row ids the result does not depend on the order of rows |
| CommitSelection.SelectNearest | src/authorship/attribution_recovery.rs:1254-1344 | every failed access is recorded; nothing found exactly if nothing was readable or eligible |
| CommitSelection.SelectLatest | src/authorship/attribution_recovery.rs:1346-1400 | the best row of the first detection with a compatible one; unavailable exactly if opening or a query before that failed |
| CommitSelection.SelectCommitSession | src/authorship/attribution_recovery.rs:1128-1169 | the choice is the justified one in every tier: best session of the log, else best near row, else best latest row, else synthesized if all was read, else none; unavailable exactly if an access failed |
| CommitSelection.TierMeaning | src/authorship/attribution_recovery.rs:1128-1169 | which tier is chosen, both directions, in terms of the log and the answers alone |
| CommitSelection.PickNamesWhom | src/authorship/attribution_recovery.rs:1193-1214 | whom the pick names in each tier, field by field |
| CommitSelection.JustifiedPickUnique | src/authorship/attribution_recovery.rs:1128-1169 | the log and the answers justify one choice only |
| NewestTimestamps.LatestTimestamps | src/authorship/attribution_recovery.rs:1091-1126 | the two passes give all timestamps, increasing, of exactly the files that hold the newest one |
| NewestTimestamps.LatestUnique | src/authorship/attribution_recovery.rs:1109-1123 | that list is unique, whatever the map order |
| NewestTimestamps.LatestEmpty | src/authorship/attribution_recovery.rs:1109-1123 | it is empty exactly if no file has a timestamp |
| RecoveryTrail.AddAttestation | src/authorship/attribution_recovery.rs:1856-1892 | the sorted, compressed lines become one entry; no lines, no entry |
| RecoveryTrail.AttestedClaims | src/authorship/attribution_recovery.rs:1856-1892 | attesting lines adds exactly those claims |
| RecoveryTrail.AttestedEntry | src/authorship/attribution_recovery.rs:1856-1892 | one entry with canonical ranges for exactly the lines is appended to the first file of the path; nothing else moves |
| RecoveryTrail.InsertSessionRecord | src/authorship/attribution_recovery.rs:1738-1779 | the session is inserted if absent and the trace's model recorded if absent |
| RecoveryTrail.ReplayClaims | src/authorship/attribution_recovery.rs:605-620 | a trail adds exactly what its claims give and removes nothing |
| RecoveryTrail.ExclusiveReplayFrame | src/authorship/attribution_recovery.rs:229-338 | claims on free lines remove nothing, touch no covered line and give a line at most one author |
| RecoveryTrail.StageKeepsExclusive | src/authorship/attribution_recovery.rs:586-620 | a stage that starts from the current unknown lines claims only free lines |
| RecoveryTrail.StageEffect | src/authorship/attribution_recovery.rs:735-752 | a completed stage gives every unknown line of a file with a choice to that choice and gives nothing else |
| RecoveryTrail.ReplayGrowsSessions | src/authorship/attribution_recovery.rs:1738-1779 | sessions keep their identity and all their trace models; other metadata is unchanged |
| RecoveryTrail.ReplayRecordsModels | src/authorship/attribution_recovery.rs:1738-1779 | with fresh traces every claimed author's session holds the claimant's model for its trace |
| RecoveryTrail.ReplayRecords | src/authorship/attribution_recovery.rs:1738-1779 | exactly the sessions of the log and of the claims have a record; an old one keeps its fields, a new one has its first claimant's agent, the human author and no attributes |
| RecoveryTrail.ReplayTraceSet | src/authorship/attribution_recovery.rs:1738-1779 | a record holds exactly the traces the log had for it and those of its claims |
| RecoveryTrail.RecoveredAuthorResolves | src/authorship/authorship_log.rs:230-238 | the new author id resolves to the tool and id of its session (the log's, or its first claimant's) with its own claimant's model |
| Recovery.LogicalHunks | src/authorship/attribution_recovery.rs:434-537 | exactly the unknown lines that the file contents support |
| Recovery.ExcludeProtected | src/authorship/attribution_recovery.rs:1791-1812 | exactly the unprotected lines remain, for any hunks without a wrap-around pair; ordered hunks have none and stay ordered |
| Recovery.ExistingSessionsMeaning | src/authorship/attribution_recovery.rs:1725-1736 | the session keys the Bash stage prefers are exactly the used ones that start with `s_` |
| Recovery.BashChoiceMeaning | src/authorship/attribution_recovery.rs:586-612 | a Bash choice exists exactly if a recorded call has evidence, and names the enriched agent of a best one under its generated session id |
| Recovery.EventChoiceMeaning | src/authorship/attribution_recovery.rs:735-751 | an event choice exists exactly if an event has evidence, and names the session, tool, external id and model of a best one |
| Recovery.ClaimFiles | src/authorship/attribution_recovery.rs:855-910 | the log becomes the replay of the trail; it fails exactly if a metric was not recorded, and otherwise every file with a choice was claimed |
| Recovery.RecoverBash | src/authorship/attribution_recovery.rs:539-664 | the Bash stage claims by the Bash choices; it fails exactly without a work tree, on a failed query that was asked, or on an unrecorded metric |
| Recovery.RecoverEvents | src/authorship/attribution_recovery.rs:667-795 | the session-event stage claims by the event choices; unavailable exactly if the database was asked and failed |
| Recovery.RecoverCommit | src/authorship/attribution_recovery.rs:798-913 | the pick is the justified choice on the log as it stood, near the newest timestamps of the unknown files; a pick claims every unknown file, no pick leaves the log untouched |
| RecoveryPipeline.RecoverExternal | src/authorship/attribution_recovery.rs:291-337 | the two external stages together, for any outcome: claims by the event choices and the justified pick, failures recorded exactly |
| RecoveryPipeline.RecoverAttribution | src/authorship/attribution_recovery.rs:229-338 | the whole pipeline: the log is the replay of justified claims, the commit pick is the justified one for the log after the event stage, and a completed run gives each candidate line exactly the first available of Bash, event and commit author |
| RecoveryPipeline.RecoveryFrame | src/authorship/attribution_recovery.rs:229-338 | no claim removed, no author for a covered line, one per line, only committed logical unprotected lines, pre-existing ones only from Bash |
| RecoveryPipeline.ClaimsAreJustified | src/authorship/attribution_recovery.rs:586-751 | every Bash claim names a best call and every event claim a best event, in terms of the evidence alone |
| RecoveryPipeline.CommitClaimsAreJustified | src/authorship/attribution_recovery.rs:833-865 | every commit claim is for the pick, which names a best session, a best event or a new session, near the newest timestamps of the open files |
| RecoveryPipeline.CommitPickLeavesNothingUnknown | src/authorship/attribution_recovery.rs:303-319 | if a completed run picked a commit session, no candidate line stays unknown |
| RecoveryPipeline.FailsClosed | src/authorship/attribution_recovery.rs:321-337 | after a failed access nothing is synthesized, and if nothing readable matched there is no pick and no commit claim; without a detection there is none either |
| RecoveryPipeline.CommitChoiceDetermined | src/authorship/attribution_recovery.rs:303-319 | completed runs that agree up to the event stage make the same commit choice |
| RecoveryPipeline.SynthesizedOnlyIfAbsent | src/authorship/attribution_recovery.rs:1128-1169 | in every run a synthesized session claims a line and means no session of the log matches, both lookups were read and held nothing compatible, and the event database was read or never asked |
| RecoveryPipeline.RecoveredAuthorsResolve | src/authorship/attribution_recovery.rs:605-620 | every author a run adds resolves to its session's tool and id with the model its own claimant was seen with |
| MarkerScan.ContainsIdentityMarker | src/authorship/attribution_recovery.rs:1044-1060 | for any marker: the answer is the one the loop's turns end with, and no answer means they never end |
| MarkerScan.ScanTerminates | src/authorship/attribution_recovery.rs:1044-1060 | the loop runs for ever exactly for an empty marker and a text that starts with a letter or a digit |
| MarkerScan.ScanEqualsContainsWord | src/authorship/attribution_recovery.rs:1044-1060 | the skipping scan returns the plain definition on every text if and only if the marker is non-empty and skip-safe |
| MarkerScan.UnsafeMarkerMissed | src/authorship/attribution_recovery.rs:1057 | a text on which the scan misses an unsafe marker |
| MarkerScan.KnownMarkersAreExact | src/authorship/attribution_recovery.rs:68-78 | for every marker in use, lower-cased as the loop does, the scan is exact |
| Base64Url.DecodeBase64Url | src/auth/identity.rs:58-87 | the nested loops compute the specified decoding, error message included |
| Base64Url.AlphabetTable | src/auth/identity.rs:68-74 | the digits are those of the table in section 5 of RFC 4648 |
| Base64Url.DecodeMeaning | src/auth/identity.rs:58-87 | accepted exactly if every character before the first `=` is in the alphabet, else the error names the first that is not; the output is the first `6n/8` bytes of the digits' bits |
| Base64Url.DecodeInvertsEncode | src/auth/identity.rs:58-87 | decoding inverts the encoding of section 5 of RFC 4648, padded or not |
| Base64Url.EncodeInvertsDecode | src/auth/identity.rs:58-87 | encoding the output gives the digits back if and only if no digit stands alone and the leftover bits are zero |
| Utf8.DecodeInvertsEncode | src/utils.rs:458-470 | decoding the UTF-8 of any string gives the string |
| Utf8.LosslessIffValid | src/utils.rs:466-470 | the lossy decoding loses nothing exactly on valid bytes, which are exactly the encodings of strings |
| Utf8.ReplacedPart | src/utils.rs:466-470 | one replacement character stands for the longest part that begins a character, or for one byte that begins none |
| GitPaths.UnescapeGitPath | src/utils.rs:399-471 | the loop and the lossy conversion compute the specified string |
| GitPaths.UnescapeInvertsQuote | src/utils.rs:399-471 | unquoting gives the path's bytes back if and only if they are UTF-8 without BEL, BS, VT or FF |
| GitPaths.UnescapeInvertsQuotedString | src/utils.rs:399-471 | a path that is a string comes back as it was if and only if it has none of the four characters |
| GitPaths.UnescapeQuotedText | src/utils.rs:457-463 | a quoted path without a backslash comes back as it is, whatever its characters |
| GitPaths.ParseOctalRun | src/utils.rs:433-451 | one to three octal digits give the byte they denote, and nothing over 255 |
| GitPaths.ParseStrayBackslash | src/utils.rs:433-456 | a backslash before `8` or `9` is dropped, and before anything else that is no escape it stays |
| GitPaths.UnescapeTotal | src/utils.rs:400-406 | it panics exactly on a lone quote; unquoted paths come back as they are |
| ConfigProtocol.ConfigSerializable | src/config.rs:1846-2008 | in every run the file is the serial application, in lock order, of the renamed writes; one process at a time |
| ConfigProtocol.FieldSurvives | src/config.rs:1807-1811 | a field keeps its value until a later write sets it |
| ConfigProtocol.GuardSeesCommitted | src/config.rs:1846-1856 | a held guard reads the current value of every field it has not edited |
| ConfigProtocol.StaleSaveIsUpdate | src/config.rs:1996-2008 | when saving an earlier read equals a locked update, both directions |
| ConfigTransactions.HistoryWasAsked | src/config.rs:1820-2008 | in every run each write was made by its process's rename and carries the config of its latest save, or exactly its edits since the load or its last write, in order |
| ConfigTransactions.LastEditWins | src/config.rs:1833-1837 | the last edit of a field decides its value |
| ConfigTransactions.HolderAlone | src/config.rs:1866-1888 | to the holder of the lock a run with any steps of others is the run of its own steps |
| ConfigTransactions.SaveCompletes | src/config.rs:2002-2008 | a save that finds the lock free ends with the file equal to its config, whatever others do in between |
| ConfigTransactions.UpdateCompletes | src/config.rs:1846-1856 | a guarded update ends with the file as it was when the lock was taken, with its edits applied |
| ConfigTransactions.TransactionsEnd | src/config.rs:1931-1971 | failed writes leave the file alone, a rename stands even if syncing fails, and every end returns the lock |
| PluginHooks.ResolveGitFileScope | agent-support/opencode/git-ai.ts:403-426 | the scope under one consistent lookup per distinct path, each looked up once |
| PluginHooks.ScopeMeaning | agent-support/opencode/git-ai.ts:403-426 | exactly the paths in a repository, exactly their repositories, none twice |
| PluginHooks.NextKeeps | agent-support/opencode/git-ai.ts:483-639 | every step of every hook keeps the invariant |
| PluginHooks.PluginScopeSafety | agent-support/opencode/git-ai.ts:483-639 | in every run the maps equal what the trace shows as open, no key is in both, every checkpoint sent is legal, and every acknowledgement answers the checkpoint its call has under way |
| PluginCalls.KeysIndependent | agent-support/opencode/git-ai.ts:483-639 | what a key has and sends in a run is what it would with its own steps alone |
| PluginCalls.ScopeConcat | agent-support/opencode/git-ai.ts:403-426 | resolving a list is resolving its parts, in order |
| PluginCalls.EditPreHook | agent-support/opencode/git-ai.ts:483-540 | on a free key an edit with a path in a repository sends a pre-checkpoint that covers exactly such paths, and one without is remembered as outside Git |
| PluginCalls.BashPreHook | agent-support/opencode/git-ai.ts:508-540 | on a free key a shell call sends a pre-checkpoint for its repository, and one without is remembered as outside Git |
| PluginCalls.PreHookEnds | agent-support/opencode/git-ai.ts:531-538 | the acknowledgement makes the call pending; a rejection leaves the key free |
| PluginCalls.EditPostHook | agent-support/opencode/git-ai.ts:570-637 | a post-checkpoint is sent exactly if the open call's repositories are found again, or there is no open call and a repository is found; it covers exactly the paths still in a repository |
| PluginCalls.BashPostHook | agent-support/opencode/git-ai.ts:605-637 | a post-checkpoint is sent exactly if a repository is found and it is the open call's, if there is one |
| PluginCalls.PostHookEnds | agent-support/opencode/git-ai.ts:636-637 | the acknowledgement frees the key; a rejection keeps the call pending |
| PluginCalls.NonGitPostHook | agent-support/opencode/git-ai.ts:555-569 | the post-hook of a call outside Git only forgets it, and only for the same tool |
| PluginCalls.MisusedKeyIsRefused | agent-support/opencode/git-ai.ts:505-573 | a second pre-hook of a taken key and a post-hook of another tool change nothing |
| PluginCalls.BashCall | agent-support/opencode/git-ai.ts:483-639 | a whole shell call sends one acknowledged checkpoint before and one after, and ends with a free key |
| TokenRefresh.RefreshOnlyUnderLock | src/api/client.rs:36-61 | each refresh is issued by the lock holder for the stored credentials inside the buffer; one in flight at most |
| TokenRefresh.SingleFlight | src/api/client.rs:18-62 | if stores succeed and new tokens outlast the run, one request at most beyond those that failed |
| TokenAnswers.ReturnedTokenHasSource | src/api/client.rs:18-62 | in every run a returned token is the access token of credentials this thread loaded with more than 300 s left, or that its own refresh gave |
| TokenAnswers.FastPathMeaning | src/api/client.rs:21-34 | what an undisturbed call does without the lock, in each case |
| TokenAnswers.SlowPathMeaning | src/api/client.rs:36-49 | with the lock: a token renewed meanwhile is returned without a request, and only one still inside the buffer makes a request |
| TokenAnswers.RefreshMeaning | src/api/client.rs:51-61 | a refresh gives its own token, stored or not, and releases the lock |
| TokenAnswers.PanicMeaning | src/api/client.rs:36-38 | a panic under the lock poisons it, and then nobody gets past it |

## Left out

- PluginHooks.PluginScopeSafety: hooks of one call key do not overlap, as the plugin relies on; tool input and metadata payloads are not modelled.
- TokenRefresh.SingleFlight: other processes, which do not share the mutex, are not modelled.
- RecoveryTrail.RecoveredAuthorResolves: trace ids are taken to be unused, as their random generation intends.
- Updating a session record in place inside its map: modelled on values, so aliasing of records is not captured.
- The diff, rename and blob lookups behind the logical filter: its verdict per file is an input.
- Which agents a commit's message and author name (apart from the marker scan): the detections are an input.
- Recovery metrics, tracing and the callback before external recovery: no effect on attribution beyond an early error return, which is modelled.
- `LineRange::overlaps` and `LineRange::shift`: not used by this code; `shift` maps only endpoints.
- Symbolic links, directory syncing and temporary-file cleanup of the config writer.
- Repository pattern matching, prompt storage, URL normalisation, content budgets, rate limits and the other plugins: easy members or thin wrappers of libraries.
