/** Finding an agent's name in a commit identity (`contains_identity_marker`,
    `src/authorship/attribution_recovery.rs`). */
module MarkerScan {
  import opened Basics

  predicate OccursAt(text: string, marker: string, p: nat) {
    p + |marker| <= |text| && text[p..p + |marker|] == marker
  }

  /** Neither neighbour of the occurrence at `p` is a letter or a digit. */
  predicate Bounded(text: string, marker: string, p: nat)
    requires p + |marker| <= |text|
  {
    && (p == 0 || !AsciiAlphanumeric(text[p - 1]))
    && (p + |marker| == |text| || !AsciiAlphanumeric(text[p + |marker|]))
  }

  /** The marker stands at `p` as a word of its own. */
  predicate WordAt(text: string, marker: string, p: nat) {
    && OccursAt(text, marker, p)
    && (p > 0 ==> !AsciiAlphanumeric(text[p - 1]))
    && (p + |marker| < |text| ==> !AsciiAlphanumeric(text[p + |marker|]))
  }

  /** The plain definition: some occurrence stands alone as a word. */
  ghost predicate ContainsWord(text: string, marker: string) {
    exists p: nat :: WordAt(text, marker, p)
  }

  /** `str::find` from `from`: the leftmost occurrence, or -1. */
  function FindFrom(text: string, marker: string, from: nat): (p: int)
    requires from <= |text|
    ensures p == -1 || (from <= p && OccursAt(text, marker, p))
    ensures forall q: nat :: from <= q && OccursAt(text, marker, q) ==> from <= p <= q
    decreases |text| - from
  {
    if OccursAt(text, marker, from) then from
    else if from == |text| then -1
    else FindFrom(text, marker, from + 1)
  }

  // ---------- the loop ----------

  datatype ScanState = Searching(from: nat) | Done(found: bool)

  /** One turn of the loop: look at the leftmost occurrence, and jump past it if it is no word. */
  function Turn(text: string, marker: string, s: ScanState): (s': ScanState)
    requires s.Searching? ==> s.from <= |text|
    ensures s'.Searching? ==> s.Searching? && s.from + |marker| <= s'.from <= |text|
  {
    match s
    case Done(_) => s
    case Searching(from) =>
      var p := FindFrom(text, marker, from);
      if p < 0 then Done(false)
      else if Bounded(text, marker, p) then Done(true)
      else Searching(p + |marker|)
  }

  /** The state after `n` turns from the start of the text. */
  function Turns(text: string, marker: string, n: nat): (s: ScanState)
    ensures s.Searching? ==> s.from <= |text|
  {
    if n == 0 then Searching(0) else Turn(text, marker, Turns(text, marker, n - 1))
  }

  /** The loop comes to an end with this answer. */
  ghost predicate Returns(text: string, marker: string, found: bool) {
    exists n: nat :: Turns(text, marker, n) == Done(found)
  }

  ghost predicate RunsForever(text: string, marker: string) {
    forall n: nat :: Turns(text, marker, n).Searching?
  }

  lemma {:induction false} DoneStays(text: string, marker: string, n: nat, k: nat)
    requires Turns(text, marker, n).Done?
    ensures Turns(text, marker, n + k) == Turns(text, marker, n)
  {
    if k > 0 {
      DoneStays(text, marker, n, k - 1);
    }
  }

  /** A loop that returns has one answer. */
  lemma OneAnswer(text: string, marker: string, a: bool, b: bool)
    requires Returns(text, marker, a) && Returns(text, marker, b)
    ensures a == b
  {
    var n: nat :| Turns(text, marker, n) == Done(a);
    var m: nat :| Turns(text, marker, m) == Done(b);
    if n <= m {
      DoneStays(text, marker, n, m - n);
    } else {
      DoneStays(text, marker, m, n - m);
    }
  }

  lemma {:induction false} StuckAt(text: string, marker: string, n: nat, k: nat)
    requires Turn(text, marker, Turns(text, marker, n)) == Turns(text, marker, n)
    ensures Turns(text, marker, n + k) == Turns(text, marker, n)
  {
    if k > 0 {
      StuckAt(text, marker, n, k - 1);
    }
  }

  /** A turn that ends where it began repeats for ever. */
  lemma StuckForever(text: string, marker: string, n: nat, k: nat)
    requires Turns(text, marker, n).Searching?
    requires Turn(text, marker, Turns(text, marker, n)) == Turns(text, marker, n)
    ensures Turns(text, marker, k).Searching?
  {
    if k > n {
      StuckAt(text, marker, n, k - n);
    } else if Turns(text, marker, k).Done? {
      DoneStays(text, marker, k, n - k);
    }
  }

  /** The body of the loop. */
  method LookOnce(text: string, marker: string, searchStart: nat) returns (s: ScanState)
    requires searchStart <= |text|
    ensures s == Turn(text, marker, Searching(searchStart))
  {
    var start := FindFrom(text, marker, searchStart);
    if start < 0 {
      return Done(false);
    }
    var end := start + |marker|;
    var beforeBoundary := start == 0 || !AsciiAlphanumeric(text[start - 1]);
    var afterBoundary := end == |text| || !AsciiAlphanumeric(text[end]);
    return if beforeBoundary && afterBoundary then Done(true) else Searching(end);
  }

  /** The source's loop for any marker. `None` means that it would not return: a turn ended
      where it began, which `ScanTerminates` shows to happen only with an empty marker. */
  method ContainsIdentityMarker(identityLower: string, marker: string) returns (found: Option<bool>)
    ensures found.Some? ==> Returns(identityLower, AsciiLower(marker), found.value)
    ensures found.None? ==> RunsForever(identityLower, AsciiLower(marker))
  {
    var markerLower := AsciiLower(marker);
    var searchStart: nat := 0;
    ghost var n: nat := 0;
    while true
      invariant 0 <= searchStart <= |identityLower|
      invariant Turns(identityLower, markerLower, n) == Searching(searchStart)
      decreases |identityLower| - searchStart
    {
      var s := LookOnce(identityLower, markerLower, searchStart);
      assert Turns(identityLower, markerLower, n + 1) == s;
      if s.Done? {
        return Some(s.found);
      }
      if s.from == searchStart {
        forall k: nat ensures Turns(identityLower, markerLower, k).Searching? {
          StuckForever(identityLower, markerLower, n, k);
        }
        return None;
      }
      searchStart, n := s.from, n + 1;
    }
  }

  /** `k` is a period of the marker: it can overlap itself shifted by `k`. */
  predicate Overlaps(marker: string, k: nat) {
    0 < k < |marker| && marker[k..] == marker[..|marker| - k]
  }

  /** Whenever the marker can overlap itself, the character before the overlapping copy is
      a letter or a digit, so the skipped copy could not have stood alone. */
  predicate SkipSafe(marker: string) {
    forall k :: 0 < k < |marker| && Overlaps(marker, k) ==> AsciiAlphanumeric(marker[k - 1])
  }

  /** An occurrence that overlaps another one exhibits a period of the marker. */
  lemma OverlapIsPeriod(text: string, marker: string, p: nat, q: nat)
    requires OccursAt(text, marker, p) && OccursAt(text, marker, q)
    requires p < q < p + |marker|
    ensures Overlaps(marker, q - p) && text[q - 1] == marker[q - p - 1]
  {
  }

  lemma TrueIsSound(text: string, marker: string)
    requires Returns(text, marker, true)
    ensures ContainsWord(text, marker)
  {
    var n: nat :| Turns(text, marker, n) == Done(true);
    TrueWasFound(text, marker, n);
  }

  lemma {:induction false} TrueWasFound(text: string, marker: string, n: nat)
    requires Turns(text, marker, n) == Done(true)
    ensures ContainsWord(text, marker)
  {
    var s := Turns(text, marker, n - 1);
    if s.Done? {
      TrueWasFound(text, marker, n - 1);
    } else {
      assert WordAt(text, marker, FindFrom(text, marker, s.from));
    }
  }

  /** With a skip-safe marker the scan never passes a word. */
  lemma {:induction false} NeverPasses(text: string, marker: string, q: nat, n: nat)
    requires marker != [] && SkipSafe(marker) && WordAt(text, marker, q)
    ensures var s := Turns(text, marker, n);
            s == Done(true) || (s.Searching? && s.from <= q)
  {
    if n > 0 {
      NeverPasses(text, marker, q, n - 1);
      var s := Turns(text, marker, n - 1);
      if s.Searching? {
        TurnNeverPasses(text, marker, q, s.from);
      }
    }
  }

  lemma TurnNeverPasses(text: string, marker: string, q: nat, from: nat)
    requires marker != [] && SkipSafe(marker) && WordAt(text, marker, q)
    requires from <= q
    ensures var s := Turn(text, marker, Searching(from));
            s == Done(true) || (s.Searching? && s.from <= q)
  {
    var p := FindFrom(text, marker, from);
    if p < q < p + |marker| {
      OverlapIsPeriod(text, marker, p, q);
    }
  }

  /** A non-empty marker moves every turn forward, so the loop returns. */
  lemma {:induction false} MovesForward(text: string, marker: string, n: nat)
    requires marker != []
    ensures var s := Turns(text, marker, n);
            s.Searching? ==> s.from >= n
  {
    if n > 0 {
      MovesForward(text, marker, n - 1);
    }
  }

  /** The loop returns exactly if the marker is not empty or the text does not start with a
      letter or a digit. */
  lemma ScanTerminates(text: string, marker: string)
    ensures RunsForever(text, marker) <==> marker == [] && text != "" && AsciiAlphanumeric(text[0])
    ensures RunsForever(text, marker) || Returns(text, marker, true) || Returns(text, marker, false)
  {
    if marker != [] {
      MovesForward(text, marker, |text| + 1);
      var s := Turns(text, marker, |text| + 1);
      assert Returns(text, marker, s.found);
    } else {
      assert OccursAt(text, marker, 0);
      assert FindFrom(text, marker, 0) == 0;
      var s := Turns(text, marker, 1);
      if s.Searching? {
        assert Turns(text, marker, 0) == Searching(0) == s;
        forall k: nat ensures Turns(text, marker, k).Searching? {
          StuckForever(text, marker, 0, k);
        }
      } else {
        assert Returns(text, marker, s.found);
      }
    }
  }

  /** A text on which an unsafe marker is missed: a letter, the part before the overlap, the marker. */
  function Missed(marker: string, k: nat): string
    requires Overlaps(marker, k)
  {
    [if marker[0] == 'x' then 'y' else 'x'] + marker[..k] + marker
  }

  lemma UnsafeMarkerMissed(marker: string, k: nat)
    requires Overlaps(marker, k) && !AsciiAlphanumeric(marker[k - 1])
    ensures ContainsWord(Missed(marker, k), marker)
    ensures Returns(Missed(marker, k), marker, false)
  {
    var n, text := |marker|, Missed(marker, k);
    assert |text| == 1 + k + n;
    assert text[1 + k..1 + k + n] == marker;
    assert text[k] == marker[k - 1];
    assert WordAt(text, marker, 1 + k);
    assert OccursAt(text, marker, 1) by {
      forall i | 0 <= i < n ensures text[1..1 + n][i] == marker[i] {
        assert i < k ==> text[1 + i] == marker[i];
        assert i >= k ==> text[1 + i] == marker[i - k] == marker[..n - k][i - k] == marker[k..][i - k];
      }
    }
    assert !OccursAt(text, marker, 0) by {
      assert text[0] != marker[0];
      assert |text| >= n;
      assert text[0..n][0] == text[0];
    }
    assert FindFrom(text, marker, 0) == 1;
    assert !Bounded(text, marker, 1);
    assert FindFrom(text, marker, 1 + n) == -1;
    assert Turns(text, marker, 0) == Searching(0);
    assert Turns(text, marker, 1) == Searching(1 + n);
    assert Turns(text, marker, 2) == Done(false);
  }

  /** For a skip-safe marker the scan returns what the plain definition says. */
  lemma SafeScanIsExact(text: string, marker: string)
    requires marker != [] && SkipSafe(marker)
    ensures forall found :: Returns(text, marker, found) <==> found == ContainsWord(text, marker)
  {
    ScanTerminates(text, marker);
    if Returns(text, marker, true) {
      TrueIsSound(text, marker);
    }
    if Returns(text, marker, false) {
      var n: nat :| Turns(text, marker, n) == Done(false);
      forall q: nat ensures !WordAt(text, marker, q) {
        if WordAt(text, marker, q) {
          NeverPasses(text, marker, q, n);
        }
      }
    }
  }

  /** The skipping scan returns the plain definition on every text exactly for non-empty
      skip-safe markers. */
  lemma ScanEqualsContainsWord(marker: string)
    ensures (forall text, found :: Returns(text, marker, found) <==> found == ContainsWord(text, marker)) <==>
            marker != [] && SkipSafe(marker)
  {
    if marker == [] {
      ScanTerminates("a", marker);
      assert forall found :: !Returns("a", marker, found);
      assert !Returns("a", marker, ContainsWord("a", marker));
    } else if SkipSafe(marker) {
      forall text, found ensures Returns(text, marker, found) <==> found == ContainsWord(text, marker) {
        SafeScanIsExact(text, marker);
      }
    } else {
      var k :| Overlaps(marker, k) && !AsciiAlphanumeric(marker[k - 1]);
      UnsafeMarkerMissed(marker, k);
      assert Returns(Missed(marker, k), marker, false) && ContainsWord(Missed(marker, k), marker);
    }
  }

  /** Alphanumeric markers, and markers that cannot overlap themselves, are skip-safe. */
  lemma SimpleMarkersAreSafe(marker: string)
    requires (forall i :: 0 <= i < |marker| ==> AsciiAlphanumeric(marker[i])) ||
             (forall k: nat :: 0 < k < |marker| ==> !Overlaps(marker, k))
    ensures SkipSafe(marker)
  {
  }

  lemma NoOverlap(marker: string, k: nat, i: nat)
    requires 0 < k && k + i < |marker| && marker[k + i] != marker[i]
    ensures !Overlaps(marker, k)
  {
  }

  /** The source's markers: words, and phrases with a space or a hyphen. */
  const KNOWN_WORDS: seq<string> :=
    ["codex", "claude", "cursor", "copilot", "devin", "droid", "windsurf", "ampcode", "opencode", "gemini"]
  const KNOWN_PHRASES: seq<string> := ["github copilot", "factory-droid", "amp code", "open code", "continue-cli"]

  lemma WordsAreSafe(marker: string)
    requires marker in KNOWN_WORDS
    ensures SkipSafe(marker)
  {
    SimpleMarkersAreSafe(marker);
  }

  lemma PhrasesAreSafe(marker: string)
    requires marker in KNOWN_PHRASES
    ensures SkipSafe(marker)
  {
    forall k: nat | 0 < k < |marker| ensures !Overlaps(marker, k) {
      var i := if (marker == "open code" && k == 6) || (marker == "continue-cli" && k == 9) then 1 else 0;
      NoOverlap(marker, k, i);
    }
    SimpleMarkersAreSafe(marker);
  }

  lemma KnownMarkersAreLower(marker: string)
    requires marker in KNOWN_WORDS || marker in KNOWN_PHRASES
    ensures AsciiLower(marker) == marker
  {
    assert forall i :: 0 <= i < |marker| ==> AsciiLowerChar(marker[i]) == marker[i];
  }

  /** So for every marker in the source the method's loop is exact on every identity. */
  lemma KnownMarkersAreExact(marker: string, identityLower: string)
    requires marker in KNOWN_WORDS || marker in KNOWN_PHRASES
    ensures forall found :: Returns(identityLower, AsciiLower(marker), found) <==>
                            found == ContainsWord(identityLower, AsciiLower(marker))
  {
    if marker in KNOWN_WORDS {
      WordsAreSafe(marker);
    } else {
      PhrasesAreSafe(marker);
    }
    KnownMarkersAreLower(marker);
    SafeScanIsExact(identityLower, marker);
  }
}
