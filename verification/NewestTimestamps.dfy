/** The timestamps that the commit-metadata stage looks near: those of the unknown files that
    hold the newest one (`latest_timestamps_for_unknown_files`,
    `src/authorship/attribution_recovery.rs`). */
module NewestTimestamps {
  import opened Basics
  import opened Selection

  /** `f` has a timestamp that no timestamp of any of the files exceeds. */
  ghost predicate HoldsNewest(f: string, files: set<string>, timestamps: string -> seq<Nanos>) {
    exists t :: t in timestamps(f) && forall g, u :: g in files && u in timestamps(g) ==> u <= t
  }

  /** All timestamps of the files that hold the newest one, in increasing order. */
  ghost predicate IsLatest(latest: seq<Nanos>, files: set<string>, timestamps: string -> seq<Nanos>) {
    && Ascending(latest)
    && forall t :: t in latest <==> exists f :: f in files && t in timestamps(f) && HoldsNewest(f, files, timestamps)
  }

  ghost predicate Ascending(s: seq<Nanos>) {
    forall i, j :: 0 <= i < j < |s| ==> s[i] < s[j]
  }

  /** There is only one such list. */
  lemma LatestUnique(a: seq<Nanos>, b: seq<Nanos>, files: set<string>, timestamps: string -> seq<Nanos>)
    requires IsLatest(a, files, timestamps) && IsLatest(b, files, timestamps)
    ensures a == b
  {
    AscendingUnique(a, b);
  }

  lemma {:induction false} AscendingUnique(a: seq<Nanos>, b: seq<Nanos>)
    requires Ascending(a) && Ascending(b) && forall t :: t in a <==> t in b
    ensures a == b
  {
    assert a != [] ==> a[0] in a;
    assert b != [] ==> b[0] in b;
    if a != [] && b != [] {
      assert a[0] in b && b[0] in a;
      var c, d := a[1..], b[1..];
      assert a == [a[0]] + c && b == [b[0]] + d;
      forall t ensures t in c <==> t in d {
        assert t in c ==> t in a && t != a[0];
        assert t in d ==> t in b && t != b[0];
      }
      AscendingUnique(c, d);
    }
  }

  /** It is empty exactly if no file has a timestamp. */
  lemma LatestEmpty(latest: seq<Nanos>, files: set<string>, timestamps: string -> seq<Nanos>)
    requires IsLatest(latest, files, timestamps)
    ensures latest == [] <==> forall f :: f in files ==> timestamps(f) == []
  {
    if f :| f in files && timestamps(f) != [] {
      var holder := NewestHolder(files, timestamps, f);
      var t :| t in timestamps(holder);
      assert t in latest;
    }
    if latest != [] {
      assert latest[0] in latest;
    }
  }

  function Greatest(s: seq<Nanos>): (r: Option<Nanos>)
    ensures r.None? <==> s == []
    ensures r.Some? ==> r.value in s && forall t :: t in s ==> t <= r.value
  {
    if s == [] then None
    else
      var front := Greatest(s[..|s| - 1]);
      assert s == s[..|s| - 1] + [s[|s| - 1]];
      if front.Some? && front.value > s[|s| - 1] then front else Some(s[|s| - 1])
  }

  function Insert(t: Nanos, sorted: seq<Nanos>): seq<Nanos> {
    if sorted == [] then [t]
    else if t == sorted[0] then sorted
    else if t < sorted[0] then [t] + sorted
    else [sorted[0]] + Insert(t, sorted[1..])
  }

  lemma {:induction false} InsertAscends(t: Nanos, sorted: seq<Nanos>)
    requires Ascending(sorted)
    ensures var r := Insert(t, sorted);
            && Ascending(r)
            && (forall u :: u in r <==> u == t || u in sorted)
            && r != [] && r[0] == if sorted == [] || t < sorted[0] then t else sorted[0]
  {
    if sorted != [] {
      InsertAscends(t, sorted[1..]);
      assert sorted == [sorted[0]] + sorted[1..];
    }
  }

  method InsertAll(ts: seq<Nanos>, sorted: seq<Nanos>) returns (r: seq<Nanos>)
    requires Ascending(sorted)
    ensures Ascending(r) && forall t :: t in r <==> t in ts || t in sorted
  {
    r := sorted;
    for i := 0 to |ts|
      invariant Ascending(r) && forall t :: t in r <==> t in ts[..i] || t in sorted
    {
      InsertAscends(ts[i], r);
      assert ts[..i + 1] == ts[..i] + [ts[i]];
      r := Insert(ts[i], r);
    }
    assert ts[..|ts|] == ts;
  }

  ghost predicate IsNewest(newest: Option<Nanos>, files: set<string>, timestamps: string -> seq<Nanos>) {
    && (newest.None? <==> forall f :: f in files ==> timestamps(f) == [])
    && (newest.Some? ==>
          && (exists f :: f in files && newest.value in timestamps(f))
          && forall f, t :: f in files && t in timestamps(f) ==> t <= newest.value)
  }

  /** First pass: the newest timestamp of all. */
  method NewestTimestamp(files: set<string>, timestamps: string -> seq<Nanos>) returns (newest: Option<Nanos>)
    ensures IsNewest(newest, files, timestamps)
  {
    newest := None;
    var todo := files;
    while todo != {}
      invariant todo <= files
      invariant IsNewest(newest, files - todo, timestamps)
      decreases todo
    {
      var f :| f in todo;
      ghost var done := files - todo;
      var fileNewest := Greatest(timestamps(f));
      todo := todo - {f};
      assert files - todo == done + {f};
      if fileNewest.Some? && (newest.None? || fileNewest.value > newest.value) {
        newest := fileNewest;
      }
    }
    assert files - todo == files;
  }

  lemma NewestHolder(files: set<string>, timestamps: string -> seq<Nanos>, some: string) returns (holder: string)
    requires some in files && timestamps(some) != []
    ensures holder in files && timestamps(holder) != [] && HoldsNewest(holder, files, timestamps)
    decreases files
  {
    holder := some;
    var t := Greatest(timestamps(some)).value;
    if f :| f in files && Greatest(timestamps(f)).Some? && Greatest(timestamps(f)).value > t {
      var rest := NewestHolder(files - {some}, timestamps, f);
      var u :| u in timestamps(rest) && forall g, v :: g in files - {some} && v in timestamps(g) ==> v <= u;
      holder := rest;
      assert Greatest(timestamps(f)).value in timestamps(f);
      forall g, v | g in files && v in timestamps(g) ensures v <= u {
        assert g != some ==> g in files - {some};
      }
    } else {
      forall g, v | g in files && v in timestamps(g) ensures v <= t {
        assert Greatest(timestamps(g)).Some?;
      }
    }
  }

  /** Second pass: the timestamps of every file that holds the newest. */
  method LatestTimestamps(files: set<string>, timestamps: string -> seq<Nanos>) returns (latest: seq<Nanos>)
    ensures IsLatest(latest, files, timestamps)
  {
    var newest := NewestTimestamp(files, timestamps);
    latest := [];
    if newest.None? {
      return;
    }
    var todo := files;
    while todo != {}
      invariant todo <= files
      invariant Ascending(latest)
      invariant forall t :: t in latest <==>
                  exists f :: f in files - todo && t in timestamps(f) && HoldsNewest(f, files, timestamps)
      decreases todo
    {
      var f :| f in todo;
      todo := todo - {f};
      NewestIsHeld(newest, files, timestamps, f);
      if Greatest(timestamps(f)) == newest {
        latest := InsertAll(timestamps(f), latest);
      }
    }
    assert files - todo == files;
  }

  lemma NewestIsHeld(newest: Option<Nanos>, files: set<string>, timestamps: string -> seq<Nanos>, f: string)
    requires newest.Some? && IsNewest(newest, files, timestamps) && f in files
    ensures Greatest(timestamps(f)) == newest <==> HoldsNewest(f, files, timestamps)
  {
  }
}
