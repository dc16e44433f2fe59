/** Committed lines that no attestation covers
    (`unknown_lines_by_file` and `covered_lines_by_file` of
    `src/authorship/attribution_recovery.rs`, shared in shape with
    `src/authorship/background_agent.rs`). */
module UnknownLines {
  import opened Basics
  import opened LineRanges
  import opened AuthorshipLogs

  type Hunks = map<string, seq<LineRange>>
  type LinesByFile = map<string, seq<Line>>

  ghost predicate InHunks(hunks: Hunks, f: string, l: Line) {
    f in hunks && InRanges(hunks[f], l)
  }

  /** A committed line without an author. */
  ghost predicate Unknown(atts: seq<FileAttestation>, hunks: Hunks, f: string, l: Line) {
    InHunks(hunks, f, l) && !Covered(atts, f, l)
  }

  ghost predicate Lists(lines: LinesByFile, f: string, l: Line) {
    f in lines && l in lines[f]
  }

  /** `lines` lists exactly the unknown lines, in order, and no file without one. */
  ghost predicate ListsUnknown(lines: LinesByFile, atts: seq<FileAttestation>, hunks: Hunks) {
    && (forall f :: f in lines ==> lines[f] != [] && Increasing(lines[f]))
    && (forall f, l: Line :: Lists(lines, f, l) <==> Unknown(atts, hunks, f, l))
  }

  /** The files that still have an unknown line. */
  ghost function UnknownFiles(atts: seq<FileAttestation>, hunks: Hunks): set<string> {
    set f | f in hunks && exists l: Line :: Unknown(atts, hunks, f, l)
  }

  lemma ListedFiles(lines: LinesByFile, atts: seq<FileAttestation>, hunks: Hunks)
    requires ListsUnknown(lines, atts, hunks)
    ensures lines.Keys == UnknownFiles(atts, hunks)
  {
    forall f ensures f in lines <==> f in UnknownFiles(atts, hunks) {
      if f in lines {
        assert Lists(lines, f, lines[f][0]);
        assert Unknown(atts, hunks, f, lines[f][0]);
      }
      if f in UnknownFiles(atts, hunks) {
        var l: Line :| Unknown(atts, hunks, f, l);
        assert Lists(lines, f, l);
      }
    }
  }

  ghost predicate SetCovers(covered: map<string, set<Line>>, f: string, l: Line) {
    f in covered && l in covered[f]
  }

  method InsertEntryLines(lines: set<Line>, entries: seq<AttestationEntry>) returns (r: set<Line>)
    ensures forall l: Line :: l in r <==> l in lines || HasRange(entries, l)
  {
    r := lines;
    for j := 0 to |entries|
      invariant forall l: Line :: l in r <==> l in lines || HasRange(entries[..j], l)
    {
      var more := ExpandAll(entries[j].lineRanges);
      forall l: Line ensures HasRange(entries[..j + 1], l) <==> HasRange(entries[..j], l) || l in more {
        ExpandAllMeaning(entries[j].lineRanges, l);
        assert forall i :: 0 <= i < j ==> entries[..j + 1][i] == entries[..j][i];
        assert entries[..j + 1][j] == entries[j];
      }
      r := r + set l | l in more;
    }
    assert entries[..|entries|] == entries;
  }

  lemma CoveredSnoc(atts: seq<FileAttestation>, i: nat, f: string, l: Line)
    requires i < |atts|
    ensures Covered(atts[..i + 1], f, l) <==>
            Covered(atts[..i], f, l) || (atts[i].path == f && HasRange(atts[i].entries, l))
  {
    CoveredMeaning(atts[..i + 1], f, l);
    CoveredMeaning(atts[..i], f, l);
    assert forall k :: 0 <= k < i ==> atts[..i + 1][k] == atts[..i][k];
    assert atts[..i + 1][i] == atts[i];
  }

  method CoveredLinesByFile(atts: seq<FileAttestation>) returns (covered: map<string, set<Line>>)
    ensures forall f, l: Line :: SetCovers(covered, f, l) <==> Covered(atts, f, l)
  {
    covered := map[];
    for i := 0 to |atts|
      invariant forall f, l: Line :: SetCovers(covered, f, l) <==> Covered(atts[..i], f, l)
    {
      var path := atts[i].path;
      var lines := InsertEntryLines(if path in covered then covered[path] else {}, atts[i].entries);
      ghost var before := covered;
      covered := covered[path := lines];
      forall f, l: Line ensures SetCovers(covered, f, l) <==> Covered(atts[..i + 1], f, l) {
        CoveredSnoc(atts, i, f, l);
        assert SetCovers(before, f, l) <==> Covered(atts[..i], f, l);
      }
    }
    assert atts[..|atts|] == atts;
  }

  /** The lines of `ranges`, in order of appearance, that are not covered. */
  method UncoveredLines(ranges: seq<LineRange>, covered: set<Line>) returns (r: seq<Line>)
    ensures forall l: Line :: l in r <==> InRanges(ranges, l) && l !in covered
  {
    var lines := ExpandAll(ranges);
    r := [];
    for i := 0 to |lines|
      invariant forall l: Line :: l in r <==> l in lines[..i] && l !in covered
    {
      assert lines[..i + 1] == lines[..i] + [lines[i]];
      if lines[i] !in covered {
        r := r + [lines[i]];
      }
    }
    assert lines[..|lines|] == lines;
    forall l: Line ensures l in lines <==> InRanges(ranges, l) {
      ExpandAllMeaning(ranges, l);
    }
  }

  method UnknownLinesByFile(atts: seq<FileAttestation>, hunks: Hunks) returns (result: LinesByFile)
    ensures ListsUnknown(result, atts, hunks)
  {
    var covered := CoveredLinesByFile(atts);
    result := map[];
    var todo := hunks.Keys;
    while todo != {}
      invariant todo <= hunks.Keys
      invariant forall f :: f in result ==> f !in todo && result[f] != [] && Increasing(result[f])
      invariant forall f, l: Line :: Lists(result, f, l) <==> f !in todo && Unknown(atts, hunks, f, l)
      decreases todo
    {
      var f :| f in todo;
      var lines := UncoveredLines(hunks[f], if f in covered then covered[f] else {});
      forall l: Line ensures l in lines <==> Unknown(atts, hunks, f, l) {
        assert SetCovers(covered, f, l) <==> Covered(atts, f, l);
      }
      SortDedupSorts(lines);
      var unknown := SortDedup(lines);
      if unknown != [] {
        result := result[f := unknown];
      } else {
        assert forall l: Line :: l !in unknown;
      }
      todo := todo - {f};
    }
  }
}
