/** The workspace closure of `scripts/release-sbom.ts`: runtime dependency maps, their comparison, and the
    worklist that finds every workspace a release needs.

    A JavaScript record is a map; a loop over its entries takes them in any order. */
module Workspaces {
  import opened Wrappers
  import opened Sorting
  import opened Reachability
  import opened Json
  import opened JsonCanonical

  type Record = map<string, string>

  datatype Manifest = Manifest(
    version: Option<string>,
    dependencies: Record,
    optionalDependencies: Record,
    peerDependencies: Record)

  // ---------------------------------------------------------------- runtime dependency maps

  /** Some field of the manifest declares this name with this specifier. */
  ghost predicate Declares(m: Manifest, name: string, specifier: string) {
    || (name in m.dependencies && m.dependencies[name] == specifier)
    || (name in m.optionalDependencies && m.optionalDependencies[name] == specifier)
    || (name in m.peerDependencies && m.peerDependencies[name] == specifier)
  }

  ghost function DeclaredNames(m: Manifest): set<string> {
    m.dependencies.Keys + m.optionalDependencies.Keys + m.peerDependencies.Keys
  }

  /** No name is declared with two specifiers, and none is one that every plain object already has
      (`inherited`: "constructor", "toString" and the like), whose inherited value never equals a specifier. */
  ghost predicate Consistent(inherited: set<string>, m: Manifest) {
    && DeclaredNames(m) !! inherited
    && forall name, s, t :: Declares(m, name, s) && Declares(m, name, t) ==> s == t
  }

  /** The map holds exactly what the manifest declares. */
  ghost predicate IsRuntimeMap(m: Manifest, merged: Record) {
    && merged.Keys == DeclaredNames(m)
    && forall name :: name in merged ==> Declares(m, name, merged[name])
  }

  ghost predicate Agrees(merged: Record, field: Record) {
    forall name :: name in merged && name in field ==> merged[name] == field[name]
  }

  /** The merge so far: `left` holds the names still to be added. */
  ghost predicate Merging(inherited: set<string>, merged: Record, field: Record, left: set<string>, output: Record) {
    && left <= field.Keys
    && output.Keys == merged.Keys + (field.Keys - left)
    && (forall name :: name in output ==> output[name] == if name in field && name !in left then field[name] else merged[name])
    && (forall name :: name in field && name !in left ==> name !in inherited && (name in merged ==> merged[name] == field[name]))
  }

  lemma MergingEnd(inherited: set<string>, merged: Record, field: Record, output: Record)
    requires Merging(inherited, merged, field, {}, output)
    ensures output == merged + field && field.Keys !! inherited && Agrees(merged, field)
  {
  }

  method MergeField(inherited: set<string>, merged: Record, field: Record) returns (r: Option<Record>)
    ensures r.Some? <==> field.Keys !! inherited && Agrees(merged, field)
    ensures r.Some? ==> r.value == merged + field
  {
    var output := merged;
    var left := field.Keys;
    while left != {}
      invariant Merging(inherited, merged, field, left, output)
      decreases |left|
    {
      var name :| name in left;
      if name in inherited || (name in output && output[name] != field[name]) {
        return None;
      }
      output := output[name := field[name]];
      left := left - {name};
    }
    MergingEnd(inherited, merged, field, output);
    r := Some(output);
  }

  /** What the three merges test, one after the other. */
  ghost predicate MergesPass(inherited: set<string>, m: Manifest) {
    && m.dependencies.Keys !! inherited
    && m.optionalDependencies.Keys !! inherited
    && m.peerDependencies.Keys !! inherited
    && Agrees(m.dependencies, m.optionalDependencies)
    && Agrees(m.dependencies + m.optionalDependencies, m.peerDependencies)
  }

  lemma MergesPassWhenConsistent(inherited: set<string>, m: Manifest)
    ensures MergesPass(inherited, m) <==> Consistent(inherited, m)
  {
    var a, b, c := m.dependencies, m.optionalDependencies, m.peerDependencies;
    if Consistent(inherited, m) {
      assert forall name :: name in a || name in b || name in c ==> name in DeclaredNames(m);
      assert forall name :: name in a ==> Declares(m, name, a[name]);
      assert forall name :: name in b ==> Declares(m, name, b[name]);
      assert forall name :: name in c ==> Declares(m, name, c[name]);
      assert Agrees(a + b, c);
    }
    if MergesPass(inherited, m) {
      forall name, s, t | Declares(m, name, s) && Declares(m, name, t)
        ensures s == t
      {
        assert name in a && name in b ==> a[name] == b[name];
        assert name in a + b && name in c ==> (a + b)[name] == c[name];
      }
    }
  }

  method RuntimeDependencyMap(inherited: set<string>, m: Manifest) returns (r: Option<Record>)
    ensures r.Some? <==> Consistent(inherited, m)
    ensures r.Some? ==> IsRuntimeMap(m, r.value)
  {
    MergesPassWhenConsistent(inherited, m);
    var first := MergeField(inherited, map[], m.dependencies);
    if first == None {
      return None;
    }
    assert first.value == m.dependencies;
    var second := MergeField(inherited, first.value, m.optionalDependencies);
    if second == None {
      return None;
    }
    r := MergeField(inherited, second.value, m.peerDependencies);
  }

  // ---------------------------------------------------------------- comparing two maps

  type Entry = (string, string)

  function EntryName(e: Entry): string { e.0 }

  /** Some order of the entries of a record. */
  ghost predicate Lists(m: Record, entries: seq<Entry>) {
    && DistinctKeys(EntryName, entries)
    && forall e :: e in entries <==> e.0 in m && m[e.0] == e.1
  }

  method ListEntries(m: Record) returns (entries: seq<Entry>)
    ensures Lists(m, entries)
  {
    entries := [];
    var left := m.Keys;
    while left != {}
      invariant left <= m.Keys
      invariant DistinctKeys(EntryName, entries)
      invariant forall e :: e in entries <==> e.0 in m && e.0 !in left && m[e.0] == e.1
      decreases |left|
    {
      var name :| name in left;
      forall i | 0 <= i < |entries|
        ensures entries[i].0 != name
      {
        assert entries[i] in entries;
      }
      entries := entries + [(name, m[name])];
      left := left - {name};
    }
  }

  function EntryJson(e: Entry): Json {
    Arr([Str(e.0), Str(e.1)])
  }

  function EntryJsons(entries: seq<Entry>): (r: seq<Json>)
    ensures |r| == |entries|
  {
    if entries == [] then [] else [EntryJson(entries[0])] + EntryJsons(entries[1..])
  }

  /** The text two dependency maps are compared by. */
  function EntriesText(entries: seq<Entry>): string {
    Print(Arr(EntryJsons(SortBy(EntryName, entries))))
  }

  lemma {:induction false} EntryJsonsValid(entries: seq<Entry>)
    ensures AreValid(EntryJsons(entries))
  {
    if entries == [] {
    } else {
      EntryJsonsValid(entries[1..]);
      var pair := [Str(entries[0].0), Str(entries[0].1)];
      assert IsValid(pair[0]) && IsValid(pair[1..][0]) && AreValid(pair[1..][1..]);
      assert AreValid(pair[1..]) && AreValid(pair);
    }
  }

  lemma {:induction false} EntryJsonsInjective(xs: seq<Entry>, ys: seq<Entry>)
    requires EntryJsons(xs) == EntryJsons(ys)
    ensures xs == ys
  {
    if xs == [] || ys == [] {
      assert |EntryJsons(xs)| == |xs| && |EntryJsons(ys)| == |ys|;
    } else {
      assert EntryJsons(xs)[0] == EntryJson(xs[0]) && EntryJsons(ys)[0] == EntryJson(ys[0]);
      assert [Str(xs[0].0), Str(xs[0].1)][0] == [Str(ys[0].0), Str(ys[0].1)][0];
      assert [Str(xs[0].0), Str(xs[0].1)][1] == [Str(ys[0].0), Str(ys[0].1)][1];
      assert EntryJsons(xs)[1..] == EntryJsons(xs[1..]) && EntryJsons(ys)[1..] == EntryJsons(ys[1..]);
      EntryJsonsInjective(xs[1..], ys[1..]);
      assert xs == [xs[0]] + xs[1..] && ys == [ys[0]] + ys[1..];
    }
  }

  lemma TextDecidesEntries(xs: seq<Entry>, ys: seq<Entry>)
    requires EntriesText(xs) == EntriesText(ys)
    ensures SortBy(EntryName, xs) == SortBy(EntryName, ys)
  {
    var a, b := EntryJsons(SortBy(EntryName, xs)), EntryJsons(SortBy(EntryName, ys));
    EntryJsonsValid(SortBy(EntryName, xs));
    EntryJsonsValid(SortBy(EntryName, ys));
    assert IsValid(Arr(a)) && IsValid(Arr(b));
    PrintReads(Arr(a));
    PrintReads(Arr(b));
    EntryJsonsInjective(SortBy(EntryName, xs), SortBy(EntryName, ys));
  }

  lemma DistinctEntries(xs: seq<Entry>)
    requires DistinctKeys(EntryName, xs)
    ensures Distinct(xs)
  {
    forall i, j | 0 <= i < j < |xs|
      ensures xs[i] != xs[j]
    {
      assert EntryName(xs[i]) != EntryName(xs[j]);
    }
  }

  /** Two listings of the same record give the same text, and only those do. */
  lemma SameTextExactlyWhenSameMap(left: Record, right: Record, xs: seq<Entry>, ys: seq<Entry>)
    requires Lists(left, xs) && Lists(right, ys)
    ensures EntriesText(xs) == EntriesText(ys) <==> left == right
  {
    DistinctEntries(xs);
    DistinctEntries(ys);
    if left == right {
      SameMultiset(xs, ys);
      SortForgetsOrder(EntryName, xs, ys);
    }
    if EntriesText(xs) == EntriesText(ys) {
      TextDecidesEntries(xs, ys);
      SortPermutes(EntryName, xs);
      SortPermutes(EntryName, ys);
      forall e
        ensures e in xs <==> e in ys
      {
        assert e in xs <==> e in multiset(xs);
        assert e in ys <==> e in multiset(ys);
      }
      MapsAgree(left, right, xs, ys);
    }
  }

  lemma MapsAgree(left: Record, right: Record, xs: seq<Entry>, ys: seq<Entry>)
    requires Lists(left, xs) && Lists(right, ys)
    requires forall e :: e in xs <==> e in ys
    ensures left == right
  {
    forall name
      ensures name in left <==> name in right
      ensures name in left && name in right ==> left[name] == right[name]
    {
      if name in left {
        assert (name, left[name]) in xs;
      }
      if name in right {
        assert (name, right[name]) in ys;
      }
    }
  }

  method SameDependencyMap(left: Record, right: Record) returns (same: bool)
    ensures same <==> left == right
  {
    var xs := ListEntries(left);
    var ys := ListEntries(right);
    SameTextExactlyWhenSameMap(left, right, xs, ys);
    same := EntriesText(xs) == EntriesText(ys);
  }

  // ---------------------------------------------------------------- one workspace

  predicate IsWorkspaceSpecifier(specifier: string) {
    "workspace:" <= specifier
  }

  ghost predicate DeclaresWorkspace(m: Manifest, name: string) {
    || (name in m.dependencies && "workspace:" <= m.dependencies[name])
    || (name in m.optionalDependencies && "workspace:" <= m.optionalDependencies[name])
    || (name in m.peerDependencies && "workspace:" <= m.peerDependencies[name])
  }

  /** The workspaces a manifest leads to; the empty name is passed over. */
  ghost function WorkspaceNames(m: Manifest): set<string> {
    set name | name in DeclaredNames(m) && name != "" && DeclaresWorkspace(m, name)
  }

  /** The external packages a manifest cannot do without, and those it can. */
  ghost function RequiredNames(m: Manifest): set<string> {
    set name | name in m.dependencies.Keys + m.peerDependencies.Keys && !DeclaresWorkspace(m, name)
  }

  ghost function OptionalNames(m: Manifest): set<string> {
    set name | name in m.optionalDependencies.Keys - m.dependencies.Keys - m.peerDependencies.Keys
               && !DeclaresWorkspace(m, name)
  }

  ghost predicate Passes(inherited: set<string>, lock: map<string, Manifest>, source: map<string, Manifest>, name: string) {
    && name in lock && name in source
    && Consistent(inherited, source[name]) && Consistent(inherited, lock[name])
    && lock[name].version == source[name].version
    && forall dependency, specifier ::
         Declares(source[name], dependency, specifier) <==> Declares(lock[name], dependency, specifier)
  }

  lemma SameMapSameDeclarations(inherited: set<string>, m: Manifest, n: Manifest, a: Record, b: Record)
    requires Consistent(inherited, m) && Consistent(inherited, n) && IsRuntimeMap(m, a) && IsRuntimeMap(n, b)
    ensures a == b <==> forall name, s :: Declares(m, name, s) <==> Declares(n, name, s)
  {
    MapHolds(inherited, m, a);
    MapHolds(inherited, n, b);
    if forall name, s :: Declares(m, name, s) <==> Declares(n, name, s) {
      forall name
        ensures name in a <==> name in b
        ensures name in a && name in b ==> a[name] == b[name]
      {
        if name in a {
          assert Declares(m, name, a[name]);
        }
        if name in b {
          assert Declares(n, name, b[name]);
        }
      }
    }
  }

  lemma MapHolds(inherited: set<string>, m: Manifest, merged: Record)
    requires Consistent(inherited, m) && IsRuntimeMap(m, merged)
    ensures forall name, s :: Declares(m, name, s) <==> name in merged && merged[name] == s
  {
  }

  method CheckWorkspace(inherited: set<string>, lock: map<string, Manifest>, source: map<string, Manifest>, name: string)
    returns (r: Option<Record>)
    ensures r.Some? <==> Passes(inherited, lock, source, name)
    ensures r.Some? ==> IsRuntimeMap(source[name], r.value)
  {
    if name !in lock || name !in source {
      return None;
    }
    var declared := RuntimeDependencyMap(inherited, source[name]);
    if declared == None {
      return None;
    }
    var locked := RuntimeDependencyMap(inherited, lock[name]);
    if locked == None {
      return None;
    }
    var same := SameDependencyMap(declared.value, locked.value);
    SameMapSameDeclarations(inherited, source[name], lock[name], declared.value, locked.value);
    if lock[name].version != source[name].version || !same {
      return None;
    }
    r := declared;
  }
}
