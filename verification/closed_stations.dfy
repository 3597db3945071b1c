/**
  The closed-stations report: the directories on disk that the catalog no
  longer names, skipping hidden directories and the "closed-stations"
  directory that holds stations already recorded as closed.
 */
module ClosedStations {

  /** One entry of the directory listing. */
  datatype DirEntry = DirEntry(name: string, isDir: bool)

  const ClosedMarker: string := "closed-stations"

  /** strings.HasPrefix(name, "."). */
  predicate Hidden(name: string)
  {
    |name| > 0 && name[0] == '.'
  }

  /** The entry is reported: a directory that is neither hidden, nor the
      marker, nor a catalog key. */
  predicate Stale(e: DirEntry, known: set<string>)
  {
    e.isDir && !Hidden(e.name) && e.name != ClosedMarker && e.name !in known
  }

  function Names(entries: seq<DirEntry>): (r: seq<string>)
    ensures |r| == |entries|
    ensures forall i :: 0 <= i < |r| ==> r[i] == entries[i].name
  {
    seq(|entries|, i requires 0 <= i < |entries| => entries[i].name)
  }

  /** The names of the stale entries, in listing order. */
  function StaleNames(entries: seq<DirEntry>, known: set<string>): (r: seq<string>)
    ensures |r| <= |entries|
    // Soundness: only non-hidden directories outside the catalog, never the marker.
    ensures forall i :: 0 <= i < |r| ==> !Hidden(r[i]) && r[i] != ClosedMarker && r[i] !in known
    ensures forall i :: 0 <= i < |r| ==> DirEntry(r[i], true) in entries
    // Completeness: every stale entry is reported.
    ensures forall j :: 0 <= j < |entries| && Stale(entries[j], known) ==> entries[j].name in r
    decreases |entries|
  {
    if entries == [] then
      []
    else
      var init := entries[..|entries| - 1];
      var e := entries[|entries| - 1];
      assert forall j :: 0 <= j < |init| ==> init[j] == entries[j];
      assert forall x :: x in init ==> x in entries;
      StaleNames(init, known) + (if Stale(e, known) then [e.name] else [])
  }

  /** `a` is `b` with some elements left out, the rest in the same order. */
  predicate IsSubsequence<T(==)>(a: seq<T>, b: seq<T>)
    decreases |b|
  {
    if a == [] then true
    else if b == [] then false
    else
      || (a[|a| - 1] == b[|b| - 1] && IsSubsequence(a[..|a| - 1], b[..|b| - 1]))
      || IsSubsequence(a, b[..|b| - 1])
  }

  /** The report keeps the listing's relative order. */
  lemma {:induction false} StaleNamesSubsequence(entries: seq<DirEntry>, known: set<string>)
    ensures IsSubsequence(StaleNames(entries, known), Names(entries))
    decreases |entries|
  {
    if entries != [] {
      var n := |entries|;
      var init := entries[..n - 1];
      var e := entries[n - 1];
      var r := StaleNames(entries, known);
      var names := Names(entries);
      StaleNamesSubsequence(init, known);
      assert names[..n - 1] == Names(init);
      if Stale(e, known) {
        assert r[..|r| - 1] == StaleNames(init, known);
        assert r[|r| - 1] == names[n - 1];
      } else {
        assert r == StaleNames(init, known);
      }
    }
  }

  /** main of closed-stations.go: build the set of known directories from
      the catalog, then walk the listing and print each stale name. The
      result depends on the catalog only through its key set. */
  method FindClosedStations(entries: seq<DirEntry>, catalog: map<string, seq<string>>)
    returns (printed: seq<string>)
    ensures printed == StaleNames(entries, catalog.Keys)
  {
    var knownDirs: map<string, bool> := map dir | dir in catalog :: true;
    printed := [];
    var i := 0;
    while i < |entries|
      invariant 0 <= i <= |entries|
      invariant printed == StaleNames(entries[..i], catalog.Keys)
    {
      var entry := entries[i];
      assert entries[..i + 1][..i] == entries[..i];
      if entry.isDir {
        var name := entry.name;
        if !(Hidden(name) || name == ClosedMarker) {
          if !(name in knownDirs && knownDirs[name]) {
            printed := printed + [name];
          }
        }
      }
      i := i + 1;
    }
    assert entries[..|entries|] == entries;
  }
}
