/** The provenance graph of `scripts/opencode-provenance.ts`: sources, destinations and patches, the three loops of
    `validateInventoryGraph`, and what their acceptance implies about the whole graph. */
module Provenance {
  import opened Wrappers
  import opened Lists
  import opened Sorting
  import opened Texts
  import opened Reachability

  datatype Classification = Copied | Derived | ReferenceOnly

  datatype Source = Source(
    path: string, classification: Classification, sha256Lf: string, patchIds: seq<string>, destinationPaths: seq<string>)

  datatype Destination = Destination(
    path: string, classification: Classification, sha256Lf: string, patchIds: seq<string>, sourcePaths: seq<string>)

  datatype Patch = Patch(id: string, sourcePaths: seq<string>, destinationPaths: seq<string>)

  datatype Occurrence = Occurrence(path: string, protocolRequired: bool, patchIds: seq<string>)

  datatype Manifest = Manifest(
    licensePath: string,
    licenseSha256Lf: string,
    sources: seq<Source>,
    destinations: seq<Destination>,
    patches: seq<Patch>,
    occurrences: seq<Occurrence>)

  function SourcePath(s: Source): string { s.path }

  function DestinationPath(d: Destination): string { d.path }

  function PatchId(p: Patch): string { p.id }

  // ---------------------------------------------------------------- what parsing guarantees

  ghost predicate UniqueSorted(xs: seq<string>) {
    Distinct(xs) && Sort(xs) == xs
  }

  ghost predicate IsParsedSource(s: Source) {
    && UniqueSorted(s.patchIds) && UniqueSorted(s.destinationPaths)
    && (if s.classification == ReferenceOnly then s.patchIds == [] && s.destinationPaths == []
        else s.patchIds != [] && s.destinationPaths != [])
  }

  ghost predicate IsParsedDestination(d: Destination) {
    && d.classification != ReferenceOnly
    && UniqueSorted(d.patchIds) && UniqueSorted(d.sourcePaths) && d.patchIds != [] && d.sourcePaths != []
  }

  /** `parseSource`, `parseDestination`, `parsePatch` and the uniqueness checks of the manifest. */
  ghost predicate IsParsed(m: Manifest) {
    && DistinctKeys(SourcePath, m.sources) && DistinctKeys(DestinationPath, m.destinations) && DistinctKeys(PatchId, m.patches)
    && (forall s :: s in m.sources ==> IsParsedSource(s))
    && (forall d :: d in m.destinations ==> IsParsedDestination(d))
    && forall p :: p in m.patches ==> UniqueSorted(p.sourcePaths) && UniqueSorted(p.destinationPaths)
  }

  // ---------------------------------------------------------------- lookup

  function SourceAt(sources: seq<Source>, path: string): (r: Option<Source>)
    ensures r.Some? ==> r.value in sources && r.value.path == path
    ensures r.None? ==> forall s :: s in sources ==> s.path != path
  {
    if sources == [] then None else if sources[0].path == path then Some(sources[0]) else SourceAt(sources[1..], path)
  }

  function DestinationAt(destinations: seq<Destination>, path: string): (r: Option<Destination>)
    ensures r.Some? ==> r.value in destinations && r.value.path == path
    ensures r.None? ==> forall d :: d in destinations ==> d.path != path
  {
    if destinations == [] then None
    else if destinations[0].path == path then Some(destinations[0])
    else DestinationAt(destinations[1..], path)
  }

  predicate HasPatch(patches: seq<Patch>, id: string) {
    exists i :: 0 <= i < |patches| && patches[i].id == id
  }

  predicate Meet(xs: seq<string>, ys: seq<string>) {
    exists i :: 0 <= i < |xs| && xs[i] in ys
  }

  predicate Inside(xs: seq<string>, ys: seq<string>) {
    forall i :: 0 <= i < |xs| ==> xs[i] in ys
  }

  predicate PatchesKnown(patches: seq<Patch>, ids: seq<string>) {
    forall i :: 0 <= i < |ids| ==> HasPatch(patches, ids[i])
  }

  // ---------------------------------------------------------------- the declarative graph

  /** The edge from a source to one of its declared destinations. */
  predicate EdgeHolds(m: Manifest, s: Source, path: string) {
    var d := DestinationAt(m.destinations, path);
    && d.Some? && s.path in d.value.sourcePaths
    && s.classification == d.value.classification
    && Meet(s.patchIds, d.value.patchIds)
  }

  predicate BackEdgeHolds(m: Manifest, d: Destination, path: string) {
    var s := SourceAt(m.sources, path);
    s.Some? && d.path in s.value.destinationPaths
  }

  ghost predicate SourceHolds(m: Manifest, s: Source) {
    && PatchesKnown(m.patches, s.patchIds)
    && forall i :: 0 <= i < |s.destinationPaths| ==> EdgeHolds(m, s, s.destinationPaths[i])
  }

  ghost predicate DestinationHolds(m: Manifest, d: Destination) {
    && (forall i :: 0 <= i < |d.sourcePaths| ==> BackEdgeHolds(m, d, d.sourcePaths[i]))
    && PatchesKnown(m.patches, d.patchIds)
  }

  ghost predicate SourceUses(sources: seq<Source>, id: string, path: string) {
    exists s :: s in sources && id in s.patchIds && s.path == path
  }

  ghost predicate DestinationUses(destinations: seq<Destination>, id: string, path: string) {
    exists d :: d in destinations && id in d.patchIds && d.path == path
  }

  function SourcesUsing(sources: seq<Source>, id: string): (r: seq<string>)
    ensures forall path :: path in r <==> SourceUses(sources, id, path)
  {
    if sources == [] then []
    else
      var rest := SourcesUsing(sources[1..], id);
      assert sources == [sources[0]] + sources[1..];
      if id in sources[0].patchIds then [sources[0].path] + rest else rest
  }

  function DestinationsUsing(destinations: seq<Destination>, id: string): (r: seq<string>)
    ensures forall path :: path in r <==> DestinationUses(destinations, id, path)
  {
    if destinations == [] then []
    else
      var rest := DestinationsUsing(destinations[1..], id);
      assert destinations == [destinations[0]] + destinations[1..];
      if id in destinations[0].patchIds then [destinations[0].path] + rest else rest
  }

  predicate PatchHolds(m: Manifest, p: Patch) {
    && Sort(SourcesUsing(m.sources, p.id)) == p.sourcePaths
    && Sort(DestinationsUsing(m.destinations, p.id)) == p.destinationPaths
  }

  predicate OccurrenceHolds(m: Manifest, o: Occurrence) {
    && PatchesKnown(m.patches, o.patchIds)
    && (o.protocolRequired ==>
          var d := DestinationAt(m.destinations, o.path);
          o.patchIds != [] && d.Some? && Inside(o.patchIds, d.value.patchIds))
  }

  predicate LicenseHolds(m: Manifest) {
    var s, d := SourceAt(m.sources, "LICENSE"), DestinationAt(m.destinations, m.licensePath);
    && s.Some? && s.value.classification == Copied && s.value.sha256Lf == m.licenseSha256Lf
    && d.Some? && d.value.classification == Copied && d.value.sha256Lf == m.licenseSha256Lf
  }

  ghost predicate GraphHolds(m: Manifest) {
    && (forall i :: 0 <= i < |m.sources| ==> SourceHolds(m, m.sources[i]))
    && (forall i :: 0 <= i < |m.destinations| ==> DestinationHolds(m, m.destinations[i]))
    && (forall i :: 0 <= i < |m.patches| ==> PatchHolds(m, m.patches[i]))
    && (forall i :: 0 <= i < |m.occurrences| ==> OccurrenceHolds(m, m.occurrences[i]))
    && LicenseHolds(m)
  }

  // ---------------------------------------------------------------- the graph without lookups

  ghost predicate IsDeclared(m: Manifest, id: string) {
    exists p :: p in m.patches && p.id == id
  }

  ghost predicate Declared(m: Manifest, ids: seq<string>) {
    forall id :: id in ids ==> IsDeclared(m, id)
  }

  ghost predicate ShareId(xs: seq<string>, ys: seq<string>) {
    exists id :: id in xs && id in ys
  }

  /** The destination declares the edge too, has the source's classification, and names a patch of the source's. */
  ghost predicate Answers(s: Source, d: Destination) {
    s.path in d.sourcePaths && s.classification == d.classification && ShareId(s.patchIds, d.patchIds)
  }

  ghost predicate LeadsTo(m: Manifest, s: Source, path: string) {
    exists d :: d in m.destinations && d.path == path && Answers(s, d)
  }

  ghost predicate ComesFrom(m: Manifest, d: Destination, path: string) {
    exists s :: s in m.sources && s.path == path && d.path in s.destinationPaths
  }

  ghost predicate SourceLinked(m: Manifest, s: Source) {
    && Declared(m, s.patchIds)
    && forall path :: path in s.destinationPaths ==> LeadsTo(m, s, path)
  }

  ghost predicate DestinationLinked(m: Manifest, d: Destination) {
    && Declared(m, d.patchIds)
    && forall path :: path in d.sourcePaths ==> ComesFrom(m, d, path)
  }

  /** The patch lists the paths of exactly the sources and destinations that name it. */
  ghost predicate PatchLinked(m: Manifest, p: Patch) {
    && (forall path :: path in p.sourcePaths <==> SourceUses(m.sources, p.id, path))
    && (forall path :: path in p.destinationPaths <==> DestinationUses(m.destinations, p.id, path))
  }

  ghost predicate IsPatchedAt(m: Manifest, o: Occurrence) {
    exists d :: d in m.destinations && d.path == o.path && forall id :: id in o.patchIds ==> id in d.patchIds
  }

  /** A required occurrence names a patch, and only patches of the destination it occurs in. */
  ghost predicate OccurrenceLinked(m: Manifest, o: Occurrence) {
    && Declared(m, o.patchIds)
    && (o.protocolRequired ==> o.patchIds != [] && IsPatchedAt(m, o))
  }

  /** The license is copied as it is, from the upstream file to the declared one. */
  ghost predicate LicenseCopied(m: Manifest) {
    && (exists s :: s in m.sources && s.path == "LICENSE" && s.classification == Copied && s.sha256Lf == m.licenseSha256Lf)
    && (exists d :: d in m.destinations && d.path == m.licensePath && d.classification == Copied
                    && d.sha256Lf == m.licenseSha256Lf)
  }

  ghost predicate WellLinked(m: Manifest) {
    && (forall s :: s in m.sources ==> SourceLinked(m, s))
    && (forall d :: d in m.destinations ==> DestinationLinked(m, d))
    && (forall p :: p in m.patches ==> PatchLinked(m, p))
    && (forall o :: o in m.occurrences ==> OccurrenceLinked(m, o))
    && LicenseCopied(m)
  }

  lemma PatchDeclared(m: Manifest, id: string)
    ensures HasPatch(m.patches, id) <==> IsDeclared(m, id)
  {
    if i :| 0 <= i < |m.patches| && m.patches[i].id == id {
      assert m.patches[i] in m.patches;
    }
  }

  lemma DeclaredExactly(m: Manifest, ids: seq<string>)
    ensures PatchesKnown(m.patches, ids) <==> Declared(m, ids)
  {
    forall id
      ensures HasPatch(m.patches, id) <==> IsDeclared(m, id)
    {
      PatchDeclared(m, id);
    }
    if Declared(m, ids) {
      forall i | 0 <= i < |ids|
        ensures HasPatch(m.patches, ids[i])
      {
        assert ids[i] in ids;
      }
    }
  }

  lemma MeetExactly(xs: seq<string>, ys: seq<string>)
    ensures Meet(xs, ys) <==> ShareId(xs, ys)
  {
    if i :| 0 <= i < |xs| && xs[i] in ys {
      assert xs[i] in xs;
    }
  }

  lemma EdgeExactly(m: Manifest, s: Source, path: string)
    requires IsParsed(m)
    ensures EdgeHolds(m, s, path) <==> LeadsTo(m, s, path)
  {
    forall d: Destination
      ensures Meet(s.patchIds, d.patchIds) <==> ShareId(s.patchIds, d.patchIds)
    {
      MeetExactly(s.patchIds, d.patchIds);
    }
    if d :| d in m.destinations && d.path == path && Answers(s, d) {
      OnlyDestination(m.destinations, d);
    }
  }

  lemma BackEdgeExactly(m: Manifest, d: Destination, path: string)
    requires IsParsed(m)
    ensures BackEdgeHolds(m, d, path) <==> ComesFrom(m, d, path)
  {
    if s :| s in m.sources && s.path == path && d.path in s.destinationPaths {
      OnlySource(m.sources, s);
    }
  }

  lemma SourceExactly(m: Manifest, s: Source)
    requires IsParsed(m)
    ensures SourceHolds(m, s) <==> SourceLinked(m, s)
  {
    DeclaredExactly(m, s.patchIds);
    forall path
      ensures EdgeHolds(m, s, path) <==> LeadsTo(m, s, path)
    {
      EdgeExactly(m, s, path);
    }
    if SourceLinked(m, s) {
      forall i | 0 <= i < |s.destinationPaths|
        ensures EdgeHolds(m, s, s.destinationPaths[i])
      {
        assert s.destinationPaths[i] in s.destinationPaths;
      }
    }
  }

  lemma DestinationExactly(m: Manifest, d: Destination)
    requires IsParsed(m)
    ensures DestinationHolds(m, d) <==> DestinationLinked(m, d)
  {
    DeclaredExactly(m, d.patchIds);
    forall path
      ensures BackEdgeHolds(m, d, path) <==> ComesFrom(m, d, path)
    {
      BackEdgeExactly(m, d, path);
    }
    if DestinationLinked(m, d) {
      forall i | 0 <= i < |d.sourcePaths|
        ensures BackEdgeHolds(m, d, d.sourcePaths[i])
      {
        assert d.sourcePaths[i] in d.sourcePaths;
      }
    }
  }

  lemma {:induction false} SourcesUsingDistinct(sources: seq<Source>, id: string)
    requires DistinctKeys(SourcePath, sources)
    ensures Distinct(SourcesUsing(sources, id))
  {
    if sources != [] {
      TailKeepsKeys(SourcePath, sources);
      SourcesUsingDistinct(sources[1..], id);
      if sources[0].path in SourcesUsing(sources[1..], id) {
        var s :| s in sources[1..] && id in s.patchIds && s.path == sources[0].path;
        HeadKeyOnce(SourcePath, sources, s);
      }
    }
  }

  lemma {:induction false} DestinationsUsingDistinct(destinations: seq<Destination>, id: string)
    requires DistinctKeys(DestinationPath, destinations)
    ensures Distinct(DestinationsUsing(destinations, id))
  {
    if destinations != [] {
      TailKeepsKeys(DestinationPath, destinations);
      DestinationsUsingDistinct(destinations[1..], id);
      if destinations[0].path in DestinationsUsing(destinations[1..], id) {
        var d :| d in destinations[1..] && id in d.patchIds && d.path == destinations[0].path;
        HeadKeyOnce(DestinationPath, destinations, d);
      }
    }
  }

  lemma TailKeepsKeys<T>(key: T -> string, xs: seq<T>)
    requires DistinctKeys(key, xs) && xs != []
    ensures DistinctKeys(key, xs[1..])
  {
    forall i, j | 0 <= i < j < |xs[1..]|
      ensures key(xs[1..][i]) != key(xs[1..][j])
    {
      assert key(xs[i + 1]) != key(xs[j + 1]);
    }
  }

  lemma HeadKeyOnce<T>(key: T -> string, xs: seq<T>, x: T)
    requires DistinctKeys(key, xs) && xs != [] && x in xs[1..]
    ensures key(x) != key(xs[0])
  {
    var k :| 0 <= k < |xs[1..]| && xs[1..][k] == x;
    assert key(xs[0]) != key(xs[k + 1]);
  }

  /** A sorted list of distinct strings is the sorted copy of another distinct list exactly when both hold the same. */
  lemma SortedCopyExactly(found: seq<string>, listed: seq<string>)
    requires Distinct(found) && UniqueSorted(listed)
    ensures Sort(found) == listed <==> forall path :: path in listed <==> path in found
  {
    SortOfSameSet(found, listed);
    assert forall path :: path in Members(found) <==> path in found;
    assert forall path :: path in Members(listed) <==> path in listed;
  }

  lemma PatchExactly(m: Manifest, p: Patch)
    requires IsParsed(m) && p in m.patches
    ensures PatchHolds(m, p) <==> PatchLinked(m, p)
  {
    SourcesUsingDistinct(m.sources, p.id);
    DestinationsUsingDistinct(m.destinations, p.id);
    SortedCopyExactly(SourcesUsing(m.sources, p.id), p.sourcePaths);
    SortedCopyExactly(DestinationsUsing(m.destinations, p.id), p.destinationPaths);
  }

  lemma OccurrenceExactly(m: Manifest, o: Occurrence)
    requires IsParsed(m)
    ensures OccurrenceHolds(m, o) <==> OccurrenceLinked(m, o)
  {
    DeclaredExactly(m, o.patchIds);
    if d :| d in m.destinations && d.path == o.path && forall id :: id in o.patchIds ==> id in d.patchIds {
      OnlyDestination(m.destinations, d);
    }
  }

  lemma LicenseExactly(m: Manifest)
    requires IsParsed(m)
    ensures LicenseHolds(m) <==> LicenseCopied(m)
  {
    if s :| s in m.sources && s.path == "LICENSE" && s.classification == Copied && s.sha256Lf == m.licenseSha256Lf {
      OnlySource(m.sources, s);
    }
    if d :| d in m.destinations && d.path == m.licensePath && d.classification == Copied && d.sha256Lf == m.licenseSha256Lf {
      OnlyDestination(m.destinations, d);
    }
  }

  lemma SourcesExactly(m: Manifest)
    requires IsParsed(m)
    ensures (forall i :: 0 <= i < |m.sources| ==> SourceHolds(m, m.sources[i])) <==>
            forall s :: s in m.sources ==> SourceLinked(m, s)
  {
    forall i | 0 <= i < |m.sources|
      ensures SourceHolds(m, m.sources[i]) <==> SourceLinked(m, m.sources[i])
    {
      SourceExactly(m, m.sources[i]);
    }
  }

  lemma DestinationsExactly(m: Manifest)
    requires IsParsed(m)
    ensures (forall i :: 0 <= i < |m.destinations| ==> DestinationHolds(m, m.destinations[i])) <==>
            forall d :: d in m.destinations ==> DestinationLinked(m, d)
  {
    forall i | 0 <= i < |m.destinations|
      ensures DestinationHolds(m, m.destinations[i]) <==> DestinationLinked(m, m.destinations[i])
    {
      DestinationExactly(m, m.destinations[i]);
    }
  }

  lemma PatchesExactly(m: Manifest)
    requires IsParsed(m)
    ensures (forall i :: 0 <= i < |m.patches| ==> PatchHolds(m, m.patches[i])) <==>
            forall p :: p in m.patches ==> PatchLinked(m, p)
  {
    forall i | 0 <= i < |m.patches|
      ensures PatchHolds(m, m.patches[i]) <==> PatchLinked(m, m.patches[i])
    {
      PatchExactly(m, m.patches[i]);
    }
  }

  lemma OccurrencesExactly(m: Manifest)
    requires IsParsed(m)
    ensures (forall i :: 0 <= i < |m.occurrences| ==> OccurrenceHolds(m, m.occurrences[i])) <==>
            forall o :: o in m.occurrences ==> OccurrenceLinked(m, o)
  {
    forall i | 0 <= i < |m.occurrences|
      ensures OccurrenceHolds(m, m.occurrences[i]) <==> OccurrenceLinked(m, m.occurrences[i])
    {
      OccurrenceExactly(m, m.occurrences[i]);
    }
  }

  /** The three loops and the license check hold exactly for the manifests whose graph is well linked. */
  lemma LinkedExactly(m: Manifest)
    requires IsParsed(m)
    ensures GraphHolds(m) <==> WellLinked(m)
  {
    SourcesExactly(m);
    DestinationsExactly(m);
    PatchesExactly(m);
    OccurrencesExactly(m);
    LicenseExactly(m);
  }

  // ---------------------------------------------------------------- the loops

  method CheckPatches(patches: seq<Patch>, ids: seq<string>) returns (ok: bool)
    ensures ok <==> PatchesKnown(patches, ids)
  {
    for i := 0 to |ids|
      invariant forall k :: 0 <= k < i ==> HasPatch(patches, ids[k])
    {
      if !HasPatch(patches, ids[i]) {
        return false;
      }
    }
    ok := true;
  }

  method CheckSource(m: Manifest, s: Source) returns (ok: bool)
    ensures ok <==> SourceHolds(m, s)
  {
    ok := CheckPatches(m.patches, s.patchIds);
    if !ok {
      return;
    }
    for i := 0 to |s.destinationPaths|
      invariant forall k :: 0 <= k < i ==> EdgeHolds(m, s, s.destinationPaths[k])
    {
      var d := DestinationAt(m.destinations, s.destinationPaths[i]);
      if d.None? || s.path !in d.value.sourcePaths {
        return false;
      }
      if s.classification != d.value.classification {
        return false;
      }
      if !Meet(s.patchIds, d.value.patchIds) {
        return false;
      }
    }
  }

  method CheckDestination(m: Manifest, d: Destination) returns (ok: bool)
    ensures ok <==> DestinationHolds(m, d)
  {
    for i := 0 to |d.sourcePaths|
      invariant forall k :: 0 <= k < i ==> BackEdgeHolds(m, d, d.sourcePaths[k])
    {
      var s := SourceAt(m.sources, d.sourcePaths[i]);
      if s.None? || d.path !in s.value.destinationPaths {
        return false;
      }
    }
    ok := CheckPatches(m.patches, d.patchIds);
  }

  method CheckPatch(m: Manifest, p: Patch) returns (ok: bool)
    ensures ok <==> PatchHolds(m, p)
  {
    var sources := Sort(SourcesUsing(m.sources, p.id));
    var destinations := Sort(DestinationsUsing(m.destinations, p.id));
    TextDecidesList(sources, p.sourcePaths);
    TextDecidesList(destinations, p.destinationPaths);
    ok := ListText(sources) == ListText(p.sourcePaths) && ListText(destinations) == ListText(p.destinationPaths);
  }

  method CheckOccurrence(m: Manifest, o: Occurrence) returns (ok: bool)
    ensures ok <==> OccurrenceHolds(m, o)
  {
    ok := CheckPatches(m.patches, o.patchIds);
    if ok && o.protocolRequired {
      var d := DestinationAt(m.destinations, o.path);
      ok := |o.patchIds| != 0 && d.Some? && Inside(o.patchIds, d.value.patchIds);
    }
  }

  /** Accepts exactly the manifests whose graph holds: of the parsed ones, those whose graph is well linked. */
  method ValidateInventoryGraph(m: Manifest) returns (ok: bool)
    ensures ok <==> GraphHolds(m)
    ensures IsParsed(m) ==> (ok <==> WellLinked(m))
  {
    if IsParsed(m) {
      LinkedExactly(m);
    }
    for i := 0 to |m.sources|
      invariant forall k :: 0 <= k < i ==> SourceHolds(m, m.sources[k])
    {
      ok := CheckSource(m, m.sources[i]);
      if !ok {
        return;
      }
    }
    for i := 0 to |m.destinations|
      invariant forall k :: 0 <= k < i ==> DestinationHolds(m, m.destinations[k])
    {
      ok := CheckDestination(m, m.destinations[i]);
      if !ok {
        return;
      }
    }
    for i := 0 to |m.patches|
      invariant forall k :: 0 <= k < i ==> PatchHolds(m, m.patches[k])
    {
      ok := CheckPatch(m, m.patches[i]);
      if !ok {
        return;
      }
    }
    for i := 0 to |m.occurrences|
      invariant forall k :: 0 <= k < i ==> OccurrenceHolds(m, m.occurrences[k])
    {
      ok := CheckOccurrence(m, m.occurrences[i]);
      if !ok {
        return;
      }
    }
    ok := LicenseHolds(m);
  }

  // ---------------------------------------------------------------- what acceptance implies

  lemma HoldsAt(m: Manifest, s: Source, d: Destination)
    requires GraphHolds(m) && s in m.sources && d in m.destinations
    ensures SourceHolds(m, s) && DestinationHolds(m, d)
  {
  }

  lemma OnlySource(sources: seq<Source>, s: Source)
    requires DistinctKeys(SourcePath, sources) && s in sources
    ensures SourceAt(sources, s.path) == Some(s)
  {
    var i :| 0 <= i < |sources| && sources[i] == s;
    var found := SourceAt(sources, s.path).value;
    var j :| 0 <= j < |sources| && sources[j] == found;
    SameSourceIndex(sources, i, j);
  }

  lemma SameSourceIndex(sources: seq<Source>, i: nat, j: nat)
    requires DistinctKeys(SourcePath, sources) && i < |sources| && j < |sources|
    requires SourcePath(sources[i]) == SourcePath(sources[j])
    ensures i == j
  {
  }

  lemma OnlyDestination(destinations: seq<Destination>, d: Destination)
    requires DistinctKeys(DestinationPath, destinations) && d in destinations
    ensures DestinationAt(destinations, d.path) == Some(d)
  {
    var i :| 0 <= i < |destinations| && destinations[i] == d;
    var found := DestinationAt(destinations, d.path).value;
    var j :| 0 <= j < |destinations| && destinations[j] == found;
    SameDestinationIndex(destinations, i, j);
  }

  lemma SameDestinationIndex(destinations: seq<Destination>, i: nat, j: nat)
    requires DistinctKeys(DestinationPath, destinations) && i < |destinations| && j < |destinations|
    requires DestinationPath(destinations[i]) == DestinationPath(destinations[j])
    ensures i == j
  {
  }

  /** An edge declared at either end is declared at both, joins equal classifications, and shares a patch. */
  lemma EdgesAreSymmetric(m: Manifest, s: Source, d: Destination)
    requires IsParsed(m) && GraphHolds(m) && s in m.sources && d in m.destinations
    ensures d.path in s.destinationPaths <==> s.path in d.sourcePaths
    ensures d.path in s.destinationPaths ==> s.classification == d.classification && Meet(s.patchIds, d.patchIds)
  {
    HoldsAt(m, s, d);
    OnlySource(m.sources, s);
    OnlyDestination(m.destinations, d);
    if d.path in s.destinationPaths {
      var i :| 0 <= i < |s.destinationPaths| && s.destinationPaths[i] == d.path;
      assert EdgeHolds(m, s, s.destinationPaths[i]);
    }
    if s.path in d.sourcePaths {
      var i :| 0 <= i < |d.sourcePaths| && d.sourcePaths[i] == s.path;
      assert BackEdgeHolds(m, d, d.sourcePaths[i]);
    }
  }

  /** Nothing is declared to come from a reference-only source. */
  lemma ReferenceOnlyIsolated(m: Manifest, s: Source, d: Destination)
    requires IsParsed(m) && GraphHolds(m) && s in m.sources && d in m.destinations && s.classification == ReferenceOnly
    ensures s.path !in d.sourcePaths
  {
    EdgesAreSymmetric(m, s, d);
    assert IsParsedSource(s);
  }

  lemma SharedPatch(m: Manifest, s: Source, d: Destination) returns (p: Patch)
    requires IsParsed(m) && GraphHolds(m) && s in m.sources && d in m.destinations && d.path in s.destinationPaths
    ensures p in m.patches && p.id in s.patchIds && p.id in d.patchIds
  {
    EdgesAreSymmetric(m, s, d);
    var i :| 0 <= i < |s.patchIds| && s.patchIds[i] in d.patchIds;
    HoldsAt(m, s, d);
    assert HasPatch(m.patches, s.patchIds[i]);
    var k :| 0 <= k < |m.patches| && m.patches[k].id == s.patchIds[i];
    p := m.patches[k];
  }

  /** Every edge is covered by a declared patch that lists both of its ends. */
  lemma EdgeIsCovered(m: Manifest, s: Source, d: Destination) returns (p: Patch)
    requires IsParsed(m) && GraphHolds(m) && s in m.sources && d in m.destinations && d.path in s.destinationPaths
    ensures p in m.patches && p.id in s.patchIds && p.id in d.patchIds
    ensures s.path in p.sourcePaths && d.path in p.destinationPaths
  {
    p := SharedPatch(m, s, d);
    assert PatchHolds(m, p);
    SortMembers(SourcesUsing(m.sources, p.id), s.path);
    SortMembers(DestinationsUsing(m.destinations, p.id), d.path);
  }

  /** A patch lists exactly the sources and destinations that name it. */
  lemma PatchIsExact(m: Manifest, p: Patch, path: string)
    requires GraphHolds(m) && p in m.patches
    ensures path in p.sourcePaths <==> SourceUses(m.sources, p.id, path)
    ensures path in p.destinationPaths <==> DestinationUses(m.destinations, p.id, path)
  {
    assert PatchHolds(m, p);
    SortMembers(SourcesUsing(m.sources, p.id), path);
    SortMembers(DestinationsUsing(m.destinations, p.id), path);
  }

  // ---------------------------------------------------------------- connected components

  datatype Node = FromSource(source: Source) | ToDestination(destination: Destination)

  ghost predicate IsNode(m: Manifest, n: Node) {
    match n
    case FromSource(s) => s in m.sources
    case ToDestination(d) => d in m.destinations
  }

  function ClassOf(n: Node): Classification {
    match n
    case FromSource(s) => s.classification
    case ToDestination(d) => d.classification
  }

  /** The nodes an edge joins to this one, whichever end declares the edge. */
  ghost function Neighbours(m: Manifest, n: Node): set<Node> {
    match n
    case FromSource(s) =>
      set d | d in m.destinations && (d.path in s.destinationPaths || s.path in d.sourcePaths) :: ToDestination(d)
    case ToDestination(d) =>
      set s | s in m.sources && (d.path in s.destinationPaths || s.path in d.sourcePaths) :: FromSource(s)
  }

  ghost function Next(m: Manifest): Node -> set<Node> {
    (n: Node) => Neighbours(m, n)
  }

  lemma NeighboursAgree(m: Manifest, a: Node, b: Node)
    requires IsParsed(m) && GraphHolds(m) && IsNode(m, a) && b in Neighbours(m, a)
    ensures IsNode(m, b) && ClassOf(b) == ClassOf(a)
  {
    match a
    case FromSource(s) => EdgesAreSymmetric(m, s, b.destination);
    case ToDestination(d) => EdgesAreSymmetric(m, b.source, d);
  }

  ghost predicate Accepted(m: Manifest) {
    IsParsed(m) && GraphHolds(m)
  }

  ghost function InClass(m: Manifest, c: Classification): Node -> bool {
    (n: Node) => IsNode(m, n) && ClassOf(n) == c
  }

  lemma StepKeepsClass(m: Manifest, c: Classification, a: Node, b: Node)
    requires Accepted(m) && InClass(m, c)(a) && b in Next(m)(a)
    ensures InClass(m, c)(b)
  {
    NeighboursAgree(m, a, b);
  }

  /** No step leaves a class. */
  ghost predicate StepsKeepClass(m: Manifest, c: Classification) {
    forall x, y :: InClass(m, c)(x) && y in Next(m)(x) ==> InClass(m, c)(y)
  }

  lemma AcceptedStepsKeepClass(m: Manifest, c: Classification)
    requires Accepted(m)
    ensures StepsKeepClass(m, c)
  {
    forall x, y | InClass(m, c)(x) && y in Next(m)(x)
      ensures InClass(m, c)(y)
    {
      StepKeepsClass(m, c, x, y);
    }
  }

  lemma ReachedInClass(m: Manifest, a: Node, b: Node)
    requires StepsKeepClass(m, ClassOf(a)) && IsNode(m, a) && Reachable({a}, Next(m), b)
    ensures IsNode(m, b) && ClassOf(b) == ClassOf(a)
  {
    ReachableKeeps({a}, Next(m), InClass(m, ClassOf(a)), b);
  }

  /** Everything a node is connected to, over any number of edges, has its classification. */
  lemma ComponentsHaveOneClass(m: Manifest, a: Node, b: Node)
    requires Accepted(m) && IsNode(m, a) && Reachable({a}, Next(m), b)
    ensures IsNode(m, b) && ClassOf(b) == ClassOf(a)
  {
    AcceptedStepsKeepClass(m, ClassOf(a));
    ReachedInClass(m, a, b);
  }
}
