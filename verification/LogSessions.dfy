/** The sessions of a log that a detected agent matches, and the best of them
    (`select_existing_commit_metadata_session` and `attested_line_count_for_session` of
    `src/authorship/attribution_recovery.rs`). */
module LogSessions {
  import opened Basics
  import opened LineRanges
  import opened AuthorshipLogs
  import opened Selection

  /** The part of a detection that selection reads: its agent kind. */
  datatype AgentKind = AgentKind(key: string, tools: seq<string>)

  // ---------- tool names ----------

  predicate EqIgnoreAsciiCase(a: string, b: string) {
    AsciiLower(a) == AsciiLower(b)
  }

  predicate MatchesTool(kind: AgentKind, tool: string) {
    exists i :: 0 <= i < |kind.tools| && EqIgnoreAsciiCase(kind.tools[i], tool)
  }

  /** The same letter in either case. */
  predicate SameLetter(a: char, b: char) {
    || a == b
    || ('A' <= a <= 'Z' && b as int == a as int + 32)
    || ('A' <= b <= 'Z' && a as int == b as int + 32)
  }

  /** Two names that differ at most in the case of their ASCII letters. */
  ghost predicate SameName(a: string, b: string) {
    |a| == |b| && forall i :: 0 <= i < |a| ==> SameLetter(a[i], b[i])
  }

  lemma EqIgnoreAsciiCaseMeaning(a: string, b: string)
    ensures EqIgnoreAsciiCase(a, b) <==> SameName(a, b)
  {
    var x, y := AsciiLower(a), AsciiLower(b);
    assert |x| == |a| && |y| == |b|;
    if |a| == |b| {
      forall i | 0 <= i < |a| ensures x[i] == y[i] <==> SameLetter(a[i], b[i]) {
      }
    }
  }

  /** An agent matches a tool if one of its own tool names is the same, whatever the case. */
  lemma MatchesToolMeaning(kind: AgentKind, tool: string)
    ensures MatchesTool(kind, tool) <==> exists i :: 0 <= i < |kind.tools| && SameName(kind.tools[i], tool)
  {
    forall i | 0 <= i < |kind.tools|
      ensures EqIgnoreAsciiCase(kind.tools[i], tool) <==> SameName(kind.tools[i], tool)
    {
      EqIgnoreAsciiCaseMeaning(kind.tools[i], tool);
    }
  }

  // ---------- sessions already in the log ----------

  function EntriesLineCount(entries: seq<AttestationEntry>, sessionId: string): nat {
    if entries == [] then 0
    else
      var last := entries[|entries| - 1];
      EntriesLineCount(entries[..|entries| - 1], sessionId) +
      if MetadataKey(last.hash) == sessionId then |ExpandAll(last.lineRanges)| else 0
  }

  function AttestedLineCount(atts: seq<FileAttestation>, sessionId: string): nat {
    if atts == [] then 0
    else AttestedLineCount(atts[..|atts| - 1], sessionId) + EntriesLineCount(atts[|atts| - 1].entries, sessionId)
  }

  ghost predicate SessionClaims(entries: seq<AttestationEntry>, sessionId: string) {
    exists j, l: Line ::
      0 <= j < |entries| && MetadataKey(entries[j].hash) == sessionId && InRanges(entries[j].lineRanges, l)
  }

  lemma {:induction false} EntriesLineCountPositive(entries: seq<AttestationEntry>, sessionId: string)
    ensures EntriesLineCount(entries, sessionId) > 0 <==> SessionClaims(entries, sessionId)
  {
    if entries != [] {
      var n := |entries| - 1;
      var lines := ExpandAll(entries[n].lineRanges);
      EntriesLineCountPositive(entries[..n], sessionId);
      assert forall j :: 0 <= j < n ==> entries[..n][j] == entries[j];
      forall l: Line ensures l in lines <==> InRanges(entries[n].lineRanges, l) {
        ExpandAllMeaning(entries[n].lineRanges, l);
      }
      assert |lines| > 0 ==> lines[0] in lines;
    }
  }

  /** A session is counted exactly if some attestation gives one of its authors a line. */
  lemma {:induction false} AttestedLineCountPositive(atts: seq<FileAttestation>, sessionId: string)
    ensures AttestedLineCount(atts, sessionId) > 0 <==>
            exists i :: 0 <= i < |atts| && SessionClaims(atts[i].entries, sessionId)
  {
    if atts != [] {
      var n := |atts| - 1;
      AttestedLineCountPositive(atts[..n], sessionId);
      EntriesLineCountPositive(atts[n].entries, sessionId);
      assert forall i :: 0 <= i < n ==> atts[..n][i] == atts[i];
    }
  }

  // ---------- what is counted ----------

  ghost function Tag<T>(n: int, s: set<T>): set<(int, T)> {
    set x | x in s :: (n, x)
  }

  lemma {:induction false} TagSize<T>(n: int, s: set<T>)
    ensures |Tag(n, s)| == |s|
  {
    if s != {} {
      var x :| x in s;
      TagSize(n, s - {x});
      assert Tag(n, s) == Tag(n, s - {x}) + {(n, x)};
    }
  }

  /** A tagged union, part by part. */
  ghost function TaggedUnion<T(!new)>(parts: seq<set<T>>): (r: set<(int, T)>)
    ensures forall y :: y in r <==> 0 <= y.0 < |parts| && y.1 in parts[y.0]
  {
    if parts == [] then {}
    else
      var n := |parts| - 1;
      assert forall i :: 0 <= i < n ==> parts[..n][i] == parts[i];
      TaggedUnion(parts[..n]) + Tag(n, parts[n])
  }

  lemma TaggedUnionSnoc<T(!new)>(parts: seq<set<T>>)
    requires parts != []
    ensures var n := |parts| - 1;
            |TaggedUnion(parts)| == |TaggedUnion(parts[..n])| + |parts[n]|
  {
    var n := |parts| - 1;
    TagSize(n, parts[n]);
    assert TaggedUnion(parts[..n]) !! Tag(n, parts[n]);
  }

  ghost function Elements(lines: seq<Line>): set<Line> {
    set l | l in lines
  }

  ghost function RangeLines(range: LineRange): set<Line> {
    Elements(range.Expand())
  }

  lemma RangeLinesSize(range: LineRange)
    ensures forall l: Line :: l in RangeLines(range) <==> range.Contains(l)
    ensures |RangeLines(range)| == |range.Expand()|
  {
    forall l: Line ensures l in RangeLines(range) <==> range.Contains(l) {
      range.ExpandMeaning(l);
    }
    DistinctSize(range.Expand());
  }

  lemma {:induction false} DistinctSize(lines: seq<Line>)
    requires Increasing(lines)
    ensures |Elements(lines)| == |lines|
  {
    if lines != [] {
      var n := |lines| - 1;
      DistinctSize(lines[..n]);
      assert forall i :: 0 <= i < n ==> lines[..n][i] < lines[n];
      assert lines[n] !in Elements(lines[..n]);
      assert lines == lines[..n] + [lines[n]];
      assert Elements(lines) == Elements(lines[..n]) + {lines[n]};
    }
  }

  ghost function RangeParts(ranges: seq<LineRange>): (parts: seq<set<Line>>)
    ensures |parts| == |ranges| && forall r :: 0 <= r < |ranges| ==> parts[r] == RangeLines(ranges[r])
  {
    seq(|ranges|, r requires 0 <= r < |ranges| => RangeLines(ranges[r]))
  }

  /** Every place in a range list where a line stands: the range and the line. */
  ghost function RangeSpots(ranges: seq<LineRange>): set<(int, Line)> {
    TaggedUnion(RangeParts(ranges))
  }

  ghost function SpotsOf(e: AttestationEntry, sessionId: string): set<(int, Line)> {
    if MetadataKey(e.hash) == sessionId then RangeSpots(e.lineRanges) else {}
  }

  ghost function EntryParts(entries: seq<AttestationEntry>, sessionId: string): (parts: seq<set<(int, Line)>>)
    ensures |parts| == |entries| && forall j :: 0 <= j < |entries| ==> parts[j] == SpotsOf(entries[j], sessionId)
  {
    seq(|entries|, j requires 0 <= j < |entries| => SpotsOf(entries[j], sessionId))
  }

  /** The entry, range and line, for the entries of one session. */
  ghost function EntrySpots(entries: seq<AttestationEntry>, sessionId: string): set<(int, (int, Line))> {
    TaggedUnion(EntryParts(entries, sessionId))
  }

  ghost function FileParts(atts: seq<FileAttestation>, sessionId: string): (parts: seq<set<(int, (int, Line))>>)
    ensures |parts| == |atts| && forall i :: 0 <= i < |atts| ==> parts[i] == EntrySpots(atts[i].entries, sessionId)
  {
    seq(|atts|, i requires 0 <= i < |atts| => EntrySpots(atts[i].entries, sessionId))
  }

  /** The file, entry, range and line. */
  ghost function Spots(atts: seq<FileAttestation>, sessionId: string): set<(int, (int, (int, Line)))> {
    TaggedUnion(FileParts(atts, sessionId))
  }

  /** A spot: line `l` stands in range `r` of entry `j` of file `i`, and that entry's author is of
      the session. */
  ghost predicate IsSpot(atts: seq<FileAttestation>, sessionId: string, i: int, j: int, r: int, l: Line) {
    && 0 <= i < |atts| && 0 <= j < |atts[i].entries|
    && MetadataKey(atts[i].entries[j].hash) == sessionId
    && 0 <= r < |atts[i].entries[j].lineRanges|
    && atts[i].entries[j].lineRanges[r].Contains(l)
  }

  lemma SpotsMeaning(atts: seq<FileAttestation>, sessionId: string, i: int, j: int, r: int, l: Line)
    ensures (i, (j, (r, l))) in Spots(atts, sessionId) <==> IsSpot(atts, sessionId, i, j, r, l)
  {
    if 0 <= i < |atts| && 0 <= j < |atts[i].entries| && 0 <= r < |atts[i].entries[j].lineRanges| {
      RangeLinesSize(atts[i].entries[j].lineRanges[r]);
    }
  }

  lemma {:induction false} ExpandAllSnoc(ranges: seq<LineRange>)
    requires ranges != []
    ensures |ExpandAll(ranges)| == |ExpandAll(ranges[..|ranges| - 1])| + |ranges[|ranges| - 1].Expand()|
  {
    var n := |ranges| - 1;
    if n > 0 {
      ExpandAllSnoc(ranges[1..]);
      assert ranges[1..][..n - 1] == ranges[..n][1..];
    }
  }

  lemma RangePartsSnoc(ranges: seq<LineRange>)
    requires ranges != []
    ensures RangeParts(ranges)[..|ranges| - 1] == RangeParts(ranges[..|ranges| - 1])
  {
  }

  /** The spots of the last range come on top of those before it. */
  lemma RangeSpotsSnoc(ranges: seq<LineRange>)
    requires ranges != []
    ensures var n := |ranges| - 1;
            |RangeSpots(ranges)| == |RangeSpots(ranges[..n])| + |ranges[n].Expand()|
  {
    RangePartsSnoc(ranges);
    TaggedUnionSnoc(RangeParts(ranges));
    RangeLinesSize(ranges[|ranges| - 1]);
  }

  lemma {:induction false} RangeSpotsSize(ranges: seq<LineRange>)
    ensures |RangeSpots(ranges)| == |ExpandAll(ranges)|
  {
    if ranges != [] {
      RangeSpotsSize(ranges[..|ranges| - 1]);
      RangeSpotsSnoc(ranges);
      ExpandAllSnoc(ranges);
    }
  }

  lemma EntryPartsSnoc(entries: seq<AttestationEntry>, sessionId: string)
    requires entries != []
    ensures EntryParts(entries, sessionId)[..|entries| - 1] == EntryParts(entries[..|entries| - 1], sessionId)
  {
  }

  lemma {:induction false} EntrySpotsSize(entries: seq<AttestationEntry>, sessionId: string)
    ensures |EntrySpots(entries, sessionId)| == EntriesLineCount(entries, sessionId)
  {
    if entries != [] {
      var n := |entries| - 1;
      EntrySpotsSize(entries[..n], sessionId);
      RangeSpotsSize(entries[n].lineRanges);
      EntryPartsSnoc(entries, sessionId);
      TaggedUnionSnoc(EntryParts(entries, sessionId));
    }
  }

  lemma FilePartsSnoc(atts: seq<FileAttestation>, sessionId: string)
    requires atts != []
    ensures FileParts(atts, sessionId)[..|atts| - 1] == FileParts(atts[..|atts| - 1], sessionId)
  {
  }

  /** The count is the number of spots. */
  lemma {:induction false} AttestedLineCountCounts(atts: seq<FileAttestation>, sessionId: string)
    ensures AttestedLineCount(atts, sessionId) == |Spots(atts, sessionId)|
  {
    if atts != [] {
      var n := |atts| - 1;
      AttestedLineCountCounts(atts[..n], sessionId);
      EntrySpotsSize(atts[n].entries, sessionId);
      FilePartsSnoc(atts, sessionId);
      TaggedUnionSnoc(FileParts(atts, sessionId));
    }
  }

  // ---------- the best session ----------

  function Codes(s: string): seq<int> {
    seq(|s|, i requires 0 <= i < |s| => s[i] as int)
  }

  predicate StringLess(a: string, b: string) {
    LexLess(Codes(a), Codes(b))
  }

  ghost predicate ExistingMatch(sessions: Sessions, detections: seq<AgentKind>, d: nat, sessionId: string) {
    d < |detections| && sessionId in sessions && MatchesTool(detections[d], sessions[sessionId].agentId.tool)
  }

  /** Earlier detection, then more attested lines, then the smaller session id. */
  predicate ExistingBetter(atts: seq<FileAttestation>, d: nat, s: string, d2: nat, s2: string) {
    || d < d2
    || (d == d2 &&
        (AttestedLineCount(atts, s) > AttestedLineCount(atts, s2) ||
         (AttestedLineCount(atts, s) == AttestedLineCount(atts, s2) && StringLess(s, s2))))
  }

  function ExistingKey(atts: seq<FileAttestation>, d: nat, s: string): seq<int> {
    [d as int, 0 - AttestedLineCount(atts, s)] + Codes(s)
  }

  lemma ExistingKeyOrders(atts: seq<FileAttestation>, d: nat, s: string, d2: nat, s2: string)
    ensures LexLess(ExistingKey(atts, d, s), ExistingKey(atts, d2, s2)) <==> ExistingBetter(atts, d, s, d2, s2)
    ensures ExistingKey(atts, d, s) == ExistingKey(atts, d2, s2) ==> d == d2 && s == s2
  {
    var a, b := ExistingKey(atts, d, s), ExistingKey(atts, d2, s2);
    LexStep(a, b, 0);
    LexStep(a, b, 1);
    assert a[2..] == Codes(s) && b[2..] == Codes(s2);
    if a == b {
      assert |Codes(s)| == |s| && |Codes(s2)| == |s2|;
      assert forall i :: 0 <= i < |s| ==> Codes(s)[i] == s[i] as int && Codes(s2)[i] == s2[i] as int;
      assert s == s2;
    }
  }

  lemma ExistingBetterTransitive(
    atts: seq<FileAttestation>, d: nat, s: string, d2: nat, s2: string, d3: nat, s3: string)
    requires ExistingBetter(atts, d, s, d2, s2) && !ExistingBetter(atts, d3, s3, d2, s2)
    ensures !ExistingBetter(atts, d3, s3, d, s)
  {
    ExistingKeyOrders(atts, d, s, d2, s2);
    ExistingKeyOrders(atts, d3, s3, d2, s2);
    ExistingKeyOrders(atts, d3, s3, d, s);
    LexTotal(ExistingKey(atts, d, s), ExistingKey(atts, d2, s2));
    LexTransitive(ExistingKey(atts, d, s), ExistingKey(atts, d2, s2), ExistingKey(atts, d3, s3));
  }

  ghost predicate IsBestExisting(
    atts: seq<FileAttestation>, sessions: Sessions, detections: seq<AgentKind>, pick: Option<(nat, string)>)
  {
    match pick
    case None => forall d: nat, s :: !ExistingMatch(sessions, detections, d, s)
    case Some((d, s)) =>
      && ExistingMatch(sessions, detections, d, s)
      && forall d2: nat, s2 :: ExistingMatch(sessions, detections, d2, s2) ==> !ExistingBetter(atts, d2, s2, d, s)
  }

  /** There is one best session, so the iteration order of the map does not matter. */
  lemma BestExistingUnique(
    atts: seq<FileAttestation>, sessions: Sessions, detections: seq<AgentKind>,
    a: Option<(nat, string)>, b: Option<(nat, string)>)
    requires IsBestExisting(atts, sessions, detections, a) && IsBestExisting(atts, sessions, detections, b)
    ensures a == b
  {
    if a.Some? && b.Some? {
      var (d, s) := a.value;
      var (d2, s2) := b.value;
      ExistingKeyOrders(atts, d, s, d2, s2);
      ExistingKeyOrders(atts, d2, s2, d, s);
      LexTotal(ExistingKey(atts, d, s), ExistingKey(atts, d2, s2));
    }
  }

  /** The order of session ids: the first differing character decides, and a prefix comes first. */
  ghost predicate Precedes(a: string, b: string) {
    exists k :: 0 <= k <= |a| && k < |b| && a[..k] == b[..k] && (k == |a| || a[k] < b[k])
  }

  lemma {:induction false} LexLessMeaning(a: seq<int>, b: seq<int>)
    ensures LexLess(a, b) <==>
            exists k :: 0 <= k <= |a| && k < |b| && a[..k] == b[..k] && (k == |a| || a[k] < b[k])
  {
    if b != [] && a != [] && a[0] == b[0] {
      LexLessMeaning(a[1..], b[1..]);
      if LexLess(a, b) {
        var k :| 0 <= k <= |a[1..]| && k < |b[1..]| && a[1..][..k] == b[1..][..k] &&
                 (k == |a[1..]| || a[1..][k] < b[1..][k]);
        assert a[..k + 1] == [a[0]] + a[1..][..k] && b[..k + 1] == [b[0]] + b[1..][..k];
      }
      if k :| 0 <= k <= |a| && k < |b| && a[..k] == b[..k] && (k == |a| || a[k] < b[k]) {
        assert k > 0;
        assert a[1..][..k - 1] == a[..k][1..] && b[1..][..k - 1] == b[..k][1..];
      }
    } else if b != [] {
      assert a[..0] == b[..0];
      if k :| 0 <= k <= |a| && k < |b| && a[..k] == b[..k] && (k == |a| || a[k] < b[k]) {
        assert k > 0 ==> a[..k][0] == b[..k][0];
      }
    }
  }

  lemma StringLessMeaning(a: string, b: string)
    ensures StringLess(a, b) <==> Precedes(a, b)
  {
    var x, y := Codes(a), Codes(b);
    LexLessMeaning(x, y);
    forall k | 0 <= k <= |a| && k < |b| ensures x[..k] == y[..k] <==> a[..k] == b[..k] {
      assert forall i :: 0 <= i < k ==> x[..k][i] == a[..k][i] as int && y[..k][i] == b[..k][i] as int;
      if x[..k] == y[..k] {
        assert forall i :: 0 <= i < k ==> a[..k][i] == b[..k][i];
      }
    }
  }

  /** What best means: no match of an earlier detection, none of the same detection with more
      spots in the log, and none with as many whose id precedes. */
  lemma BestExistingMeaning(
    atts: seq<FileAttestation>, sessions: Sessions, detections: seq<AgentKind>, d: nat, s: string, d2: nat, s2: string)
    requires IsBestExisting(atts, sessions, detections, Some((d, s))) && ExistingMatch(sessions, detections, d2, s2)
    ensures ExistingMatch(sessions, detections, d, s) && d <= d2
    ensures d == d2 ==> |Spots(atts, s)| >= |Spots(atts, s2)|
    ensures d == d2 && |Spots(atts, s)| == |Spots(atts, s2)| ==> !Precedes(s2, s)
  {
    AttestedLineCountCounts(atts, s);
    AttestedLineCountCounts(atts, s2);
    StringLessMeaning(s2, s);
  }

  method SelectExisting(atts: seq<FileAttestation>, sessions: Sessions, detections: seq<AgentKind>)
    returns (best: Option<(nat, string)>)
    ensures IsBestExisting(atts, sessions, detections, best)
  {
    best := None;
    for d := 0 to |detections|
      invariant best.Some? ==> ExistingMatch(sessions, detections, best.value.0, best.value.1)
      invariant forall d2: nat, s2 :: ExistingMatch(sessions, detections, d2, s2) && d2 < d ==>
                  best.Some? && !ExistingBetter(atts, d2, s2, best.value.0, best.value.1)
    {
      var todo := sessions.Keys;
      while todo != {}
        invariant todo <= sessions.Keys
        invariant best.Some? ==> ExistingMatch(sessions, detections, best.value.0, best.value.1)
        invariant forall d2: nat, s2 ::
                    ExistingMatch(sessions, detections, d2, s2) && (d2 < d || (d2 == d && s2 !in todo)) ==>
                    best.Some? && !ExistingBetter(atts, d2, s2, best.value.0, best.value.1)
        decreases todo
      {
        var s :| s in todo;
        ghost var was := best;
        if MatchesTool(detections[d], sessions[s].agentId.tool) {
          if best.None? || ExistingBetter(atts, d, s, best.value.0, best.value.1) {
            best := Some((d, s));
            ExistingKeyOrders(atts, d, s, d, s);
            LexTotal(ExistingKey(atts, d, s), ExistingKey(atts, d, s));
            forall d2: nat, s2 | was.Some? && !ExistingBetter(atts, d2, s2, was.value.0, was.value.1)
              ensures !ExistingBetter(atts, d2, s2, d, s)
            {
              ExistingBetterTransitive(atts, d, s, was.value.0, was.value.1, d2, s2);
            }
          }
        }
        todo := todo - {s};
      }
    }
  }
}
