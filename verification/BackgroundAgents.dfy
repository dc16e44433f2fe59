/** Filling the holes of a commit made by an agent without hooks
    (`src/authorship/background_agent.rs`). The detected agent, the session id
    generator and the trace id are inputs. */
module BackgroundAgents {
  import opened Basics
  import opened LineRanges
  import opened AuthorshipLogs
  import opened UnknownLines

  datatype BackgroundAgent =
    | WithHooks(tool: string)
    | NoHooks(tool: string, id: string)
    | NoAgent

  function FilledRecord(agent: BackgroundAgent, human: string, traceId: string): SessionRecord
    requires agent.NoHooks?
  {
    SessionRecord(AgentId(agent.tool, agent.id, "unknown"), map[traceId := "unknown"], Some(human), None)
  }

  /** Everything `fill_unattributed_lines` promises about one call. */
  ghost predicate Fills(
    before: Log, after: Log, applied: bool, hunks: Hunks, agent: BackgroundAgent,
    human: string, sessionId: string, traceId: string)
  {
    && (applied <==> agent.NoHooks? && exists f, l: Line :: Unknown(before.attestations, hunks, f, l))
    && (!applied ==> after == before)
    && (applied ==>
          && after.metadata == before.metadata.(
               sessions := before.metadata.sessions[sessionId := FilledRecord(agent, human, traceId)])
          && forall f, h, l: Line :: Claims(after.attestations, f, h, l) <==>
               Claims(before.attestations, f, h, l) ||
               (h == AuthorId(sessionId, traceId) && Unknown(before.attestations, hunks, f, l)))
  }

  /** `ranges` stands for exactly the unknown lines, file by file. */
  ghost predicate RangesUnknown(ranges: Hunks, atts: seq<FileAttestation>, hunks: Hunks) {
    forall f, l: Line :: InHunks(ranges, f, l) <==> Unknown(atts, hunks, f, l)
  }

  /** The uncovered lines of every file, sorted but not deduplicated before compression. */
  method UnattributedHunks(atts: seq<FileAttestation>, hunks: Hunks) returns (r: Hunks)
    ensures RangesUnknown(r, atts, hunks)
    ensures r == map[] <==> forall f, l: Line :: !Unknown(atts, hunks, f, l)
  {
    var attributed := CoveredLinesByFile(atts);
    r := map[];
    var todo := hunks.Keys;
    while todo != {}
      invariant todo <= hunks.Keys
      invariant forall f :: f in r ==> f !in todo && exists l: Line :: InHunks(r, f, l)
      invariant forall f, l: Line :: InHunks(r, f, l) <==> f !in todo && Unknown(atts, hunks, f, l)
      decreases todo
    {
      var f :| f in todo;
      var lines := UncoveredLines(hunks[f], if f in attributed then attributed[f] else {});
      forall l: Line ensures l in lines <==> Unknown(atts, hunks, f, l) {
        assert SetCovers(attributed, f, l) <==> Covered(atts, f, l);
      }
      if lines != [] {
        SortSorts(lines);
        var ranges := CompressLines(Sort(lines));
        forall l: Line ensures InRanges(ranges, l) <==> l in lines {
          CompressMeaning(Sort(lines), l);
        }
        ghost var before := r;
        r := r[f := ranges];
        assert lines[0] in lines && InHunks(r, f, lines[0]);
        assert forall g, l: Line :: g != f ==> (InHunks(r, g, l) <==> InHunks(before, g, l));
      } else {
        assert forall l: Line :: l !in lines;
      }
      todo := todo - {f};
    }
    forall f | f in r ensures exists l: Line :: Unknown(atts, hunks, f, l) {
      var l: Line :| InHunks(r, f, l);
    }
    if r == map[] {
      assert forall f, l: Line :: !InHunks(r, f, l);
    }
  }

  method AddUnattributed(log: AuthorshipLog, unattributed: Hunks, author: string)
    modifies log`attestations
    ensures forall f, h, l: Line :: Claims(log.attestations, f, h, l) <==>
              Claims(old(log.attestations), f, h, l) || (h == author && InHunks(unattributed, f, l))
  {
    ghost var before := log.attestations;
    var todo := unattributed.Keys;
    while todo != {}
      invariant todo <= unattributed.Keys
      invariant forall f, h, l: Line :: Claims(log.attestations, f, h, l) <==>
                  Claims(before, f, h, l) || (h == author && f !in todo && InHunks(unattributed, f, l))
      decreases todo
    {
      var path :| path in todo;
      ghost var sofar := log.attestations;
      var entry := AttestationEntry(author, unattributed[path]);
      log.AddEntry(path, entry);
      todo := todo - {path};
      forall f, h, l: Line
        ensures Claims(log.attestations, f, h, l) <==>
                Claims(before, f, h, l) || (h == author && f !in todo && InHunks(unattributed, f, l))
      {
        WithEntryClaims(sofar, path, entry, f, h, l);
      }
    }
  }

  method FillUnattributedLines(
    log: AuthorshipLog, agent: BackgroundAgent, hunks: Hunks, human: string,
    sessionIdOf: (string, string) -> string, traceId: string)
    returns (applied: bool)
    modifies log
    ensures agent.NoHooks? ==>
              Fills(old(log.Value()), log.Value(), applied, hunks, agent, human,
                    sessionIdOf(agent.id, agent.tool), traceId)
    ensures !agent.NoHooks? ==> !applied && log.Value() == old(log.Value())
  {
    if !agent.NoHooks? {
      return false;
    }
    if hunks == map[] {
      assert forall f, l: Line :: !Unknown(log.attestations, hunks, f, l);
      return false;
    }
    var unattributed := UnattributedHunks(log.attestations, hunks);
    if unattributed == map[] {
      return false;
    }
    var sessionId := sessionIdOf(agent.id, agent.tool);
    log.metadata := log.metadata.(sessions := log.metadata.sessions[sessionId := FilledRecord(agent, human, traceId)]);
    AddUnattributed(log, unattributed, AuthorId(sessionId, traceId));
    return true;
  }

  /** After a call for a no-hooks agent no committed line is left unknown, lines that had an
      author keep exactly their authors, and every new claim is on a line that had none. */
  lemma FillClosesHoles(
    before: Log, after: Log, applied: bool, hunks: Hunks, agent: BackgroundAgent,
    human: string, sessionId: string, traceId: string)
    requires agent.NoHooks?
    requires Fills(before, after, applied, hunks, agent, human, sessionId, traceId)
    ensures forall f, l: Line :: InHunks(hunks, f, l) ==> Covered(after.attestations, f, l)
    ensures forall f, h, l: Line :: Covered(before.attestations, f, l) ==>
              (Claims(after.attestations, f, h, l) <==> Claims(before.attestations, f, h, l))
    ensures Unambiguous(before.attestations) ==> Unambiguous(after.attestations)
  {
    var author := AuthorId(sessionId, traceId);
    forall f, l: Line | InHunks(hunks, f, l) ensures Covered(after.attestations, f, l) {
      if Covered(before.attestations, f, l) {
        var h :| Claims(before.attestations, f, h, l);
        assert Claims(after.attestations, f, h, l);
      } else {
        assert Unknown(before.attestations, hunks, f, l);
        assert Claims(after.attestations, f, author, l);
      }
    }
    forall f, h1, h2, l: Line
      | Unambiguous(before.attestations) && Claims(after.attestations, f, h1, l) && Claims(after.attestations, f, h2, l)
      ensures h1 == h2
    {
      assert Claims(before.attestations, f, h1, l) || Claims(before.attestations, f, h2, l) ==>
          Covered(before.attestations, f, l);
    }
  }

  /** A second run applies nothing and leaves the log as it was, whatever agent it detects (a
      placeholder id changes every second), and whatever author, session and trace it would use. */
  lemma SecondFillIsNoop(
    before: Log, middle: Log, after: Log, first: bool, second: bool, hunks: Hunks,
    agent: BackgroundAgent, human: string, sessionId: string, traceId: string,
    agent2: BackgroundAgent, human2: string, sessionId2: string, traceId2: string)
    requires agent.NoHooks?
    requires Fills(before, middle, first, hunks, agent, human, sessionId, traceId)
    requires Fills(middle, after, second, hunks, agent2, human2, sessionId2, traceId2)
    ensures !second && after == middle
  {
    FillClosesHoles(before, middle, first, hunks, agent, human, sessionId, traceId);
    assert forall f, l: Line :: !Unknown(middle.attestations, hunks, f, l);
  }

  /** The filled session replaces an older record under the same key: an author id keeps its
      identity exactly if it belongs to another session or was already this agent with an
      unknown model. */
  lemma FillIdentities(
    before: Log, after: Log, hunks: Hunks, agent: BackgroundAgent,
    human: string, sessionId: string, traceId: string, author: string)
    requires agent.NoHooks?
    requires Fills(before, after, true, hunks, agent, human, sessionId, traceId)
    ensures ResolveSession(after.metadata.sessions, author) == ResolveSession(before.metadata.sessions, author) <==>
            MetadataKey(author) != sessionId ||
            ResolveSession(before.metadata.sessions, author) == Some(AgentId(agent.tool, agent.id, "unknown"))
    ensures var sessions := after.metadata.sessions;
            && sessions.Keys == before.metadata.sessions.Keys + {sessionId}
            && (forall k :: k in sessions && k != sessionId ==> sessions[k] == before.metadata.sessions[k])
            && sessions[sessionId].humanAuthor == Some(human)
            && sessions[sessionId].customAttributes == None
            && sessions[sessionId].traceModels == map[traceId := "unknown"]
    ensures Splittable(sessionId) ==>
              ResolveSession(after.metadata.sessions, AuthorId(sessionId, traceId)) ==
              Some(AgentId(agent.tool, agent.id, "unknown"))
  {
    AuthorIdRoundTrip(sessionId, traceId);
    var sessions := after.metadata.sessions;
    assert sessions[sessionId] == FilledRecord(agent, human, traceId);
    assert sessions[sessionId].AgentIdForAuthor(author) == AgentId(agent.tool, agent.id, "unknown");
  }
}
