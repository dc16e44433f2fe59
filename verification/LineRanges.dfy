/** Line numbers, line ranges and their compressed form
    (`src/authorship/authorship_log.rs`, `src/authorship/conflict_resolution.rs`).

    A `seq<LineRange>` stands for a set of lines; `InRanges` is that meaning. The
    results below say that every range operation is exact on it, for degenerate
    ranges (`start > end`) too, and that the compressed form is canonical. */
module LineRanges {
  import opened Basics

  const MAX_LINE: int := 0xFFFF_FFFF

  type Line = U32

  datatype LineRange = Single(line: Line) | Range(start: Line, end: Line) {

    predicate Contains(l: Line) {
      match this
      case Single(x) => l == x
      case Range(lo, hi) => lo <= l <= hi
    }

    function Low(): Line {
      if Single? then line else start
    }

    function High(): Line {
      if Single? then line else end
    }

    /** The lines of the range in increasing order; none when `start > end`. */
    function Expand(): (lines: seq<Line>)
      ensures |lines| == if Low() <= High() then High() - Low() + 1 else 0
      ensures forall i :: 0 <= i < |lines| ==> lines[i] == Low() + i
    {
      var n := if Low() <= High() then High() - Low() + 1 else 0;
      seq(n, i requires 0 <= i < n => Low() + i)
    }

    lemma ExpandMeaning(l: Line)
      ensures l in Expand() <==> Contains(l)
    {
      if Contains(l) {
        assert Expand()[l - Low()] == l;
      }
    }

    /** What is left of this range once `other` is taken out, by the source's case analysis. */
    function Remove(other: LineRange): (parts: seq<LineRange>)
    {
      match (this, other)
      case (Single(l), Single(r)) => if l == r then [] else [this]
      case (Single(l), Range(lo, hi)) => if lo <= l <= hi then [] else [this]
      case (Range(lo, hi), Single(r)) =>
        if r < lo || r > hi then [this]
        else if r == lo && r == hi then []
        else if r == lo then [Range(lo + 1, hi)]
        else if r == hi then [Range(lo, hi - 1)]
        else [Range(lo, r - 1), Range(r + 1, hi)]
      case (Range(lo, hi), Range(rlo, rhi)) =>
        if rlo > hi || rhi < lo then [this]
        else
          (if lo < rlo then [Range(lo, rlo - 1)] else []) +
          (if hi > rhi then [Range(rhi + 1, hi)] else [])
    }
  }

  /** The meaning of a range list: the lines some range contains. */
  ghost predicate InRanges(ranges: seq<LineRange>, l: Line) {
    exists i :: 0 <= i < |ranges| && ranges[i].Contains(l)
  }

  lemma InRangesConcat(a: seq<LineRange>, b: seq<LineRange>, l: Line)
    ensures InRanges(a + b, l) <==> InRanges(a, l) || InRanges(b, l)
  {
    var c := a + b;
    assert forall i :: 0 <= i < |a| ==> c[i] == a[i];
    assert forall i :: 0 <= i < |b| ==> c[|a| + i] == b[i];
  }

  /** Removing a range is set difference on lines, for all ranges, degenerate ones included. */
  lemma RemoveIsDifference(r: LineRange, other: LineRange, l: Line)
    ensures InRanges(r.Remove(other), l) <==> r.Contains(l) && !other.Contains(l)
  {
    var parts := r.Remove(other);
    assert |parts| <= 2;
    assert InRanges(parts, l) <==>
        (|parts| > 0 && parts[0].Contains(l)) || (|parts| > 1 && parts[1].Contains(l));
  }

  // ---------- expansion and compression ----------

  /** `flat_map(LineRange::expand)`. */
  function ExpandAll(ranges: seq<LineRange>): seq<Line> {
    if ranges == [] then [] else ranges[0].Expand() + ExpandAll(ranges[1..])
  }

  /** Expansion lists exactly the lines the ranges mean. */
  lemma {:induction false} ExpandAllMeaning(ranges: seq<LineRange>, l: Line)
    ensures l in ExpandAll(ranges) <==> InRanges(ranges, l)
  {
    if ranges != [] {
      var first := [ranges[0]];
      ranges[0].ExpandMeaning(l);
      ExpandAllMeaning(ranges[1..], l);
      InRangesConcat(first, ranges[1..], l);
      assert ranges == first + ranges[1..];
      assert InRanges(first, l) <==> first[0].Contains(l);
    }
  }

  /** `u32` successor as compiled for release: it wraps. */
  function Successor(l: Line): Line {
    if l == MAX_LINE then 0 else l + 1
  }

  function RunRange(first: Line, last: Line): LineRange {
    if first == last then Single(first) else Range(first, last)
  }

  function Compress(lines: seq<Line>): seq<LineRange> {
    if lines == [] then [] else CompressRun(lines[0], lines[0], lines[1..])
  }

  function CompressRun(first: Line, last: Line, rest: seq<Line>): seq<LineRange>
    decreases |rest|
  {
    if rest == [] then [RunRange(first, last)]
    else if rest[0] == Successor(last) then CompressRun(first, rest[0], rest[1..])
    else [RunRange(first, last)] + CompressRun(rest[0], rest[0], rest[1..])
  }

  /** The single pass over `current_start` and `current_end`. */
  method CompressLines(lines: seq<Line>) returns (ranges: seq<LineRange>)
    ensures ranges == Compress(lines)
  {
    if |lines| == 0 {
      return [];
    }
    ranges := [];
    var currentStart, currentEnd := lines[0], lines[0];
    for i := 1 to |lines|
      invariant ranges + CompressRun(currentStart, currentEnd, lines[i..]) == Compress(lines)
    {
      assert lines[i..][0] == lines[i] && lines[i..][1..] == lines[i + 1..];
      if lines[i] == Successor(currentEnd) {
        currentEnd := lines[i];
      } else {
        if currentStart == currentEnd {
          ranges := ranges + [Single(currentStart)];
        } else {
          ranges := ranges + [Range(currentStart, currentEnd)];
        }
        currentStart, currentEnd := lines[i], lines[i];
      }
    }
    if currentStart == currentEnd {
      ranges := ranges + [Single(currentStart)];
    } else {
      ranges := ranges + [Range(currentStart, currentEnd)];
    }
  }

  /** The largest `u32` directly followed by zero: the one input shape on which the
      wrapping addition of `compress_lines` joins lines that are not neighbours. */
  predicate WrapsAround(lines: seq<Line>) {
    exists i :: 0 <= i < |lines| - 1 && lines[i] == MAX_LINE && lines[i + 1] == 0
  }

  /** For every list of `u32`, sorted or not: expanding the compressed form gives the
      list back, element for element, exactly when it has no wrap-around pair. */
  lemma CompressRoundTrip(lines: seq<Line>)
    ensures ExpandAll(Compress(lines)) == lines <==> !WrapsAround(lines)
  {
    if lines != [] {
      assert lines == [lines[0]] + lines[1..];
      if !WrapsAround(lines) {
        CompressRunExpands(lines[0], lines[0], lines[1..]);
      } else {
        CompressRunShrinks(lines[0], lines[0], lines[1..]);
      }
    }
  }

  lemma RunGrows(first: Line, last: Line)
    requires first <= last < MAX_LINE
    ensures RunRange(first, last + 1).Expand() == RunRange(first, last).Expand() + [last + 1]
  {
  }

  lemma WrapsAroundTail(last: Line, rest: seq<Line>)
    requires rest != []
    ensures WrapsAround([last] + rest) <==> (last == MAX_LINE && rest[0] == 0) || WrapsAround(rest)
  {
    var all := [last] + rest;
    assert forall i :: 0 <= i < |rest| ==> all[i + 1] == rest[i];
    if WrapsAround(rest) {
      var i :| 0 <= i < |rest| - 1 && rest[i] == MAX_LINE && rest[i + 1] == 0;
      assert all[i + 1] == MAX_LINE && all[i + 2] == 0;
    }
    if last == MAX_LINE && rest[0] == 0 {
      assert all[0] == MAX_LINE && all[1] == 0;
    }
    if WrapsAround(all) {
      var i :| 0 <= i < |all| - 1 && all[i] == MAX_LINE && all[i + 1] == 0;
      if i > 0 {
        assert rest[i - 1] == MAX_LINE && rest[i] == 0;
      }
    }
  }

  lemma ExpandAllCons(r: LineRange, more: seq<LineRange>)
    ensures ExpandAll([r] + more) == r.Expand() + ExpandAll(more)
  {
  }

  lemma {:induction false} CompressRunExpands(first: Line, last: Line, rest: seq<Line>)
    requires first <= last
    requires !WrapsAround([last] + rest)
    ensures ExpandAll(CompressRun(first, last, rest)) == RunRange(first, last).Expand() + rest
    decreases |rest|
  {
    var run, lines := RunRange(first, last), RunRange(first, last).Expand();
    if rest == [] {
      ExpandAllCons(run, []);
      assert [run] + [] == [run] && lines + [] == lines;
    } else {
      var next, tail := rest[0], rest[1..];
      assert rest == [next] + tail;
      WrapsAroundTail(last, rest);
      if next == Successor(last) {
        CompressRunExpands(first, next, tail);
        RunGrows(first, last);
        assert lines + [next] + tail == lines + rest;
      } else {
        CompressRunExpands(next, next, tail);
        ExpandAllCons(run, CompressRun(next, next, tail));
        assert RunRange(next, next).Expand() == [next];
      }
    }
  }

  /** A wrap-around loses lines: the expansion is strictly shorter than the input. */
  lemma {:induction false} CompressRunShrinks(first: Line, last: Line, rest: seq<Line>)
    ensures |ExpandAll(CompressRun(first, last, rest))| <= |RunRange(first, last).Expand()| + |rest|
    ensures WrapsAround([last] + rest) ==>
              |ExpandAll(CompressRun(first, last, rest))| < |RunRange(first, last).Expand()| + |rest|
    decreases |rest|
  {
    var run := RunRange(first, last);
    if rest == [] {
      ExpandAllCons(run, []);
      assert [run] + [] == [run];
    } else {
      WrapsAroundTail(last, rest);
      assert rest == [rest[0]] + rest[1..];
      if rest[0] == Successor(last) {
        CompressRunShrinks(first, rest[0], rest[1..]);
      } else {
        CompressRunShrinks(rest[0], rest[0], rest[1..]);
        ExpandAllCons(run, CompressRun(rest[0], rest[0], rest[1..]));
      }
    }
  }

  // ---------- sorting ----------

  ghost predicate Increasing(lines: seq<Line>) {
    forall i, j :: 0 <= i < j < |lines| ==> lines[i] < lines[j]
  }

  ghost predicate NonDecreasing(lines: seq<Line>) {
    forall i, j :: 0 <= i < j < |lines| ==> lines[i] <= lines[j]
  }

  function InsertDistinct(l: Line, sorted: seq<Line>): seq<Line> {
    if sorted == [] then [l]
    else if l == sorted[0] then sorted
    else if l < sorted[0] then [l] + sorted
    else [sorted[0]] + InsertDistinct(l, sorted[1..])
  }

  /** `sort_unstable` followed by `dedup`. */
  function SortDedup(lines: seq<Line>): seq<Line> {
    if lines == [] then [] else InsertDistinct(lines[0], SortDedup(lines[1..]))
  }

  lemma {:induction false} InsertDistinctSorts(l: Line, sorted: seq<Line>)
    requires Increasing(sorted)
    ensures var r := InsertDistinct(l, sorted);
            && Increasing(r)
            && (forall x: Line :: x in r <==> x == l || x in sorted)
            && r != [] && r[0] == if sorted == [] || l < sorted[0] then l else sorted[0]
  {
    if sorted != [] {
      InsertDistinctSorts(l, sorted[1..]);
      assert sorted == [sorted[0]] + sorted[1..];
    }
  }

  lemma {:induction false} SortDedupSorts(lines: seq<Line>)
    ensures Increasing(SortDedup(lines))
    ensures forall x: Line :: x in SortDedup(lines) <==> x in lines
  {
    if lines != [] {
      SortDedupSorts(lines[1..]);
      InsertDistinctSorts(lines[0], SortDedup(lines[1..]));
      assert lines == [lines[0]] + lines[1..];
    }
  }

  function InsertSorted(l: Line, sorted: seq<Line>): seq<Line> {
    if sorted == [] then [l]
    else if l <= sorted[0] then [l] + sorted
    else [sorted[0]] + InsertSorted(l, sorted[1..])
  }

  /** `sort` alone: duplicates stay. */
  function Sort(lines: seq<Line>): seq<Line> {
    if lines == [] then [] else InsertSorted(lines[0], Sort(lines[1..]))
  }

  lemma {:induction false} InsertSortedSorts(l: Line, sorted: seq<Line>)
    requires NonDecreasing(sorted)
    ensures var r := InsertSorted(l, sorted);
            && NonDecreasing(r)
            && (forall x: Line :: x in r <==> x == l || x in sorted)
            && r != [] && r[0] == if sorted == [] || l <= sorted[0] then l else sorted[0]
  {
    if sorted != [] {
      InsertSortedSorts(l, sorted[1..]);
      assert sorted == [sorted[0]] + sorted[1..];
    }
  }

  lemma {:induction false} SortSorts(lines: seq<Line>)
    ensures NonDecreasing(Sort(lines))
    ensures forall x: Line :: x in Sort(lines) <==> x in lines
  {
    if lines != [] {
      SortSorts(lines[1..]);
      InsertSortedSorts(lines[0], Sort(lines[1..]));
      assert lines == [lines[0]] + lines[1..];
    }
  }

  lemma SortedNeverWraps(lines: seq<Line>)
    requires NonDecreasing(lines)
    ensures !WrapsAround(lines)
  {
  }

  /** Compressing a sorted list, duplicates or not, keeps its set of lines. */
  lemma CompressMeaning(lines: seq<Line>, l: Line)
    requires NonDecreasing(lines)
    ensures InRanges(Compress(lines), l) <==> l in lines
  {
    SortedNeverWraps(lines);
    CompressRoundTrip(lines);
    ExpandAllMeaning(Compress(lines), l);
  }

  /** In a strictly increasing list the addition in `compress_lines` cannot overflow. */
  lemma IncreasingNeverOverflows(lines: seq<Line>, i: nat)
    requires Increasing(lines) && i + 1 < |lines|
    ensures lines[i] < MAX_LINE
  {
    assert lines[i] < lines[i + 1];
  }

  // ---------- canonical form ----------

  ghost predicate Proper(r: LineRange) {
    r.Single? || r.start < r.end
  }

  /** Ordered ranges, no degenerate one, a gap of at least one line between neighbours. */
  ghost predicate Canonical(ranges: seq<LineRange>) {
    && (forall i :: 0 <= i < |ranges| ==> Proper(ranges[i]))
    && (forall i, j :: 0 <= i < j < |ranges| ==> ranges[i].High() + 1 < ranges[j].Low())
  }

  lemma CompressCanonical(lines: seq<Line>)
    requires Increasing(lines)
    ensures Canonical(Compress(lines))
  {
    if lines != [] {
      assert [lines[0]] + lines[1..] == lines;
      CompressRunCanonical(lines[0], lines[0], lines[1..]);
    }
  }

  lemma CanonicalCons(r: LineRange, more: seq<LineRange>)
    requires Proper(r) && Canonical(more)
    requires forall i :: 0 <= i < |more| ==> r.High() + 1 < more[i].Low()
    ensures Canonical([r] + more)
  {
  }

  lemma {:induction false} CompressRunCanonical(first: Line, last: Line, rest: seq<Line>)
    requires first <= last
    requires Increasing([last] + rest)
    ensures Canonical(CompressRun(first, last, rest))
    ensures forall i :: 0 <= i < |CompressRun(first, last, rest)| ==> first <= CompressRun(first, last, rest)[i].Low()
    decreases |rest|
  {
    if rest != [] {
      var all := [last] + rest;
      assert [rest[0]] + rest[1..] == all[1..];
      assert all[0] < all[1];
      if rest[0] == Successor(last) {
        CompressRunCanonical(first, rest[0], rest[1..]);
      } else {
        CompressRunCanonical(rest[0], rest[0], rest[1..]);
        CanonicalCons(RunRange(first, last), CompressRun(rest[0], rest[0], rest[1..]));
      }
    }
  }

  lemma CanonicalTail(ranges: seq<LineRange>, l: Line)
    requires Canonical(ranges) && ranges != []
    ensures InRanges(ranges, l) <==> ranges[0].Contains(l) || InRanges(ranges[1..], l)
    ensures InRanges(ranges, l) ==> ranges[0].Low() <= l
    ensures InRanges(ranges[1..], l) ==> ranges[0].High() + 1 < l
    ensures Canonical(ranges[1..])
  {
  }

  /** Two canonical lists with the same lines are the same list. */
  lemma {:induction false} CanonicalUnique(a: seq<LineRange>, b: seq<LineRange>)
    requires Canonical(a) && Canonical(b)
    requires forall l: Line :: InRanges(a, l) <==> InRanges(b, l)
    ensures a == b
  {
    assert a != [] ==> a[0].Contains(a[0].Low()) && InRanges(a, a[0].Low());
    assert b != [] ==> b[0].Contains(b[0].Low()) && InRanges(b, b[0].Low());
    if a != [] && b != [] {
      HeadsAgree(a, b);
      forall l: Line ensures InRanges(a[1..], l) <==> InRanges(b[1..], l) {
        CanonicalTail(a, l);
        CanonicalTail(b, l);
      }
      CanonicalTail(a, 0);
      CanonicalTail(b, 0);
      CanonicalUnique(a[1..], b[1..]);
      assert a == [a[0]] + a[1..] && b == [b[0]] + b[1..];
    }
  }

  lemma HeadsAgree(a: seq<LineRange>, b: seq<LineRange>)
    requires Canonical(a) && Canonical(b) && a != [] && b != []
    requires forall l: Line :: InRanges(a, l) <==> InRanges(b, l)
    ensures a[0] == b[0]
  {
    HeadBelow(a, b);
    HeadBelow(b, a);
  }

  lemma HeadBelow(a: seq<LineRange>, b: seq<LineRange>)
    requires Canonical(a) && Canonical(b) && a != [] && b != []
    requires forall l: Line :: InRanges(a, l) <==> InRanges(b, l)
    ensures b[0].Low() <= a[0].Low()
    ensures a[0].Low() == b[0].Low() ==> a[0].High() <= b[0].High()
  {
    assert a[0].Contains(a[0].Low());
    CanonicalTail(b, a[0].Low());
    if a[0].Low() == b[0].Low() && b[0].High() < a[0].High() {
      var l: Line := b[0].High() + 1;
      assert a[0].Contains(l);
      CanonicalTail(b, l);
    }
  }

  /** No range list with the same lines is shorter than the canonical one. */
  lemma CanonicalMinimal(canonical: seq<LineRange>, other: seq<LineRange>)
    requires Canonical(canonical)
    requires forall l: Line :: InRanges(canonical, l) <==> InRanges(other, l)
    ensures |canonical| <= |other|
  {
    var a, b := Elements(Lows(canonical)), Elements(Lows(other));
    forall x | x in a ensures x in b {
      var i :| 0 <= i < |canonical| && Lows(canonical)[i] == x;
      StartIsStart(canonical, other, i);
    }
    assert a <= b;
    assert |b| == |a| + |b - a|;
    forall i, j | 0 <= i < j < |canonical| ensures Lows(canonical)[i] != Lows(canonical)[j] {
      assert canonical[i].High() + 1 < canonical[j].Low();
    }
    ElementCount(Lows(canonical));
    ElementCount(Lows(other));
  }

  ghost function Lows(ranges: seq<LineRange>): seq<Line> {
    seq(|ranges|, i requires 0 <= i < |ranges| => ranges[i].Low())
  }

  ghost function Elements(lines: seq<Line>): set<Line> {
    set x | x in lines
  }

  lemma StartIsStart(canonical: seq<LineRange>, other: seq<LineRange>, i: nat)
    requires Canonical(canonical) && i < |canonical|
    requires forall l: Line :: InRanges(canonical, l) <==> InRanges(other, l)
    ensures canonical[i].Low() in Elements(Lows(other))
  {
    var x := canonical[i].Low();
    assert canonical[i].Contains(x);
    assert InRanges(canonical, x);
    var j :| 0 <= j < |other| && other[j].Contains(x);
    assert x > 0 ==> !InRanges(canonical, x - 1) by {
      forall k | 0 <= k < |canonical| ensures x > 0 ==> !canonical[k].Contains(x - 1) {
        assert k < i ==> canonical[k].High() + 1 < canonical[i].Low();
        assert i < k ==> canonical[i].High() + 1 < canonical[k].Low();
      }
    }
    assert x > 0 ==> !other[j].Contains(x - 1);
    assert Lows(other)[j] == x;
  }

  lemma {:induction false} ElementCount(s: seq<Line>)
    ensures |Elements(s)| <= |s|
    ensures (forall i, j :: 0 <= i < j < |s| ==> s[i] != s[j]) ==> |Elements(s)| == |s|
  {
    if s != [] {
      var front, last := s[..|s| - 1], s[|s| - 1];
      ElementCount(front);
      assert s == front + [last];
      assert Elements(s) == Elements(front) + {last};
    }
  }

  // ---------- normalisation and subtraction ----------

  function Normalize(ranges: seq<LineRange>): seq<LineRange> {
    Compress(SortDedup(ExpandAll(ranges)))
  }

  method NormalizeLineRanges(ranges: seq<LineRange>) returns (r: seq<LineRange>)
    ensures r == Normalize(ranges)
  {
    var lines := SortDedup(ExpandAll(ranges));
    r := CompressLines(lines);
  }

  lemma IncreasingIsNonDecreasing(lines: seq<Line>)
    requires Increasing(lines)
    ensures NonDecreasing(lines)
  {
  }

  /** Normalising keeps the lines and gives the canonical list for them. */
  lemma NormalizeMeaning(ranges: seq<LineRange>)
    ensures forall l: Line :: InRanges(Normalize(ranges), l) <==> InRanges(ranges, l)
    ensures Canonical(Normalize(ranges))
    ensures Normalize(ranges) == [] <==> forall l: Line :: !InRanges(ranges, l)
  {
    var lines := SortDedup(ExpandAll(ranges));
    SortDedupSorts(ExpandAll(ranges));
    IncreasingIsNonDecreasing(lines);
    forall l: Line ensures InRanges(Normalize(ranges), l) <==> InRanges(ranges, l) {
      CompressMeaning(lines, l);
      ExpandAllMeaning(ranges, l);
    }
    CompressCanonical(lines);
    var n := Normalize(ranges);
    if n != [] {
      assert n[0].Contains(n[0].Low());
      assert InRanges(n, n[0].Low());
    }
  }

  /** Equal sets of lines have equal normal forms, and no shorter form exists. */
  lemma NormalizeCanonical(a: seq<LineRange>, b: seq<LineRange>)
    requires forall l: Line :: InRanges(a, l) <==> InRanges(b, l)
    ensures Normalize(a) == Normalize(b)
    ensures |Normalize(a)| <= |b|
  {
    NormalizeMeaning(a);
    NormalizeMeaning(b);
    CanonicalUnique(Normalize(a), Normalize(b));
    CanonicalMinimal(Normalize(a), b);
  }

  /** `flat_map(|range| range.remove(covered))`. */
  function RemoveEach(ranges: seq<LineRange>, covered: LineRange): seq<LineRange> {
    if ranges == [] then [] else ranges[0].Remove(covered) + RemoveEach(ranges[1..], covered)
  }

  function RemoveAll(ranges: seq<LineRange>, covered: seq<LineRange>): seq<LineRange>
    decreases |covered|
  {
    if covered == [] then ranges else RemoveAll(RemoveEach(ranges, covered[0]), covered[1..])
  }

  function Subtract(ranges: seq<LineRange>, covered: seq<LineRange>): seq<LineRange> {
    Normalize(RemoveAll(ranges, covered))
  }

  lemma {:induction false} RemoveAllOfNothing(covered: seq<LineRange>)
    ensures RemoveAll([], covered) == []
  {
    if covered != [] {
      RemoveAllOfNothing(covered[1..]);
    }
  }

  /** The loop over the cover, leaving early once nothing remains. */
  method SubtractLineRanges(ranges: seq<LineRange>, covered: seq<LineRange>) returns (r: seq<LineRange>)
    ensures r == Subtract(ranges, covered)
  {
    var remaining := ranges;
    var i := 0;
    while i < |covered|
      invariant 0 <= i <= |covered|
      invariant RemoveAll(remaining, covered[i..]) == RemoveAll(ranges, covered)
    {
      assert covered[i..][0] == covered[i] && covered[i..][1..] == covered[i + 1..];
      remaining := RemoveEach(remaining, covered[i]);
      i := i + 1;
      if remaining == [] {
        RemoveAllOfNothing(covered[i..]);
        break;
      }
    }
    r := NormalizeLineRanges(remaining);
  }

  lemma {:induction false} RemoveEachMeaning(ranges: seq<LineRange>, covered: LineRange, l: Line)
    ensures InRanges(RemoveEach(ranges, covered), l) <==> InRanges(ranges, l) && !covered.Contains(l)
  {
    if ranges != [] {
      var first := [ranges[0]];
      RemoveEachMeaning(ranges[1..], covered, l);
      RemoveIsDifference(ranges[0], covered, l);
      InRangesConcat(ranges[0].Remove(covered), RemoveEach(ranges[1..], covered), l);
      InRangesConcat(first, ranges[1..], l);
      assert ranges == first + ranges[1..];
      assert InRanges(first, l) <==> first[0].Contains(l);
    }
  }

  lemma {:induction false} RemoveAllMeaning(ranges: seq<LineRange>, covered: seq<LineRange>, l: Line)
    ensures InRanges(RemoveAll(ranges, covered), l) <==> InRanges(ranges, l) && !InRanges(covered, l)
    decreases |covered|
  {
    if covered != [] {
      var first := [covered[0]];
      RemoveEachMeaning(ranges, covered[0], l);
      RemoveAllMeaning(RemoveEach(ranges, covered[0]), covered[1..], l);
      InRangesConcat(first, covered[1..], l);
      assert covered == first + covered[1..];
      assert InRanges(first, l) <==> first[0].Contains(l);
    }
  }

  /** Subtraction is exact and canonical for every range list and every cover. */
  lemma SubtractExact(ranges: seq<LineRange>, covered: seq<LineRange>)
    ensures forall l: Line ::
              InRanges(Subtract(ranges, covered), l) <==> InRanges(ranges, l) && !InRanges(covered, l)
    ensures Canonical(Subtract(ranges, covered))
    ensures Subtract(ranges, covered) == [] <==>
            forall l: Line :: InRanges(ranges, l) ==> InRanges(covered, l)
  {
    NormalizeMeaning(RemoveAll(ranges, covered));
    forall l: Line
      ensures InRanges(RemoveAll(ranges, covered), l) <==> InRanges(ranges, l) && !InRanges(covered, l)
    {
      RemoveAllMeaning(ranges, covered, l);
    }
  }
}
