/** Package records of the lockfile, as `scripts/release-sbom.ts` reads them: locators, dependency names, the
    index by name, and the installed store. */
module LockPackages {
  import opened Wrappers

  // ---------------------------------------------------------------- locators

  function LastIndexOf(s: string, c: char): (r: int)
    ensures -1 <= r < |s|
  {
    if s == "" then -1 else if s[|s| - 1] == c then |s| - 1 else LastIndexOf(s[..|s| - 1], c)
  }

  function ParseLocator(locator: string): Option<(string, string)> {
    var separator := LastIndexOf(locator, '@');
    if separator <= 0 || separator == |locator| - 1 then None
    else Some((locator[..separator], locator[separator + 1..]))
  }

  lemma {:induction false} LastIndexIsLast(s: string, c: char)
    ensures LastIndexOf(s, c) == -1 ==> c !in s
    ensures LastIndexOf(s, c) >= 0 ==> s[LastIndexOf(s, c)] == c && c !in s[LastIndexOf(s, c) + 1..]
  {
    if s == "" || s[|s| - 1] == c {
    } else {
      var t := s[..|s| - 1];
      LastIndexIsLast(t, c);
      assert s == t + [s[|s| - 1]];
      var r := LastIndexOf(t, c);
      if r >= 0 {
        assert s[r + 1..] == t[r + 1..] + [s[|s| - 1]];
      }
    }
  }

  lemma {:induction false} LastIndexFound(s: string, c: char, i: nat)
    requires i < |s| && s[i] == c && c !in s[i + 1..]
    ensures LastIndexOf(s, c) == i
  {
    if i == |s| - 1 {
    } else {
      var t := s[..|s| - 1];
      assert s[i + 1..][|s| - 2 - i] == s[|s| - 1];
      assert s[i + 1..] == t[i + 1..] + [s[|s| - 1]];
      LastIndexFound(t, c, i);
    }
  }

  /** A locator is read exactly as the one split at a separator that leaves no later separator. */
  lemma LocatorSplits(locator: string, name: string, version: string)
    ensures ParseLocator(locator) == Some((name, version)) <==>
            locator == name + "@" + version && name != "" && version != "" && '@' !in version
  {
    LastIndexIsLast(locator, '@');
    if locator == name + "@" + version && name != "" && version != "" && '@' !in version {
      assert locator[|name| + 1..] == version && locator[..|name|] == name;
      LastIndexFound(locator, '@', |name|);
    }
    if ParseLocator(locator) == Some((name, version)) {
      assert locator == locator[..|name|] + [locator[|name|]] + locator[|name| + 1..];
    }
  }

  // ---------------------------------------------------------------- records

  datatype OptionalPeers = NoPeers | Malformed | Peers(names: seq<string>)

  /** The names a record depends on, in listing order. */
  datatype Metadata = Metadata(
    dependencies: seq<string>,
    optionalDependencies: seq<string>,
    peerDependencies: seq<string>,
    optionalPeers: OptionalPeers)

  datatype Package = Package(key: string, name: string, version: string, metadata: Metadata, integrity: Option<string>)

  function Identity(p: Package): string {
    p.name + "@" + p.version
  }

  lemma IdentityInjective(p: Package, q: Package)
    requires Identity(p) == Identity(q) && '@' !in p.version && '@' !in q.version
    ensures p.name == q.name && p.version == q.version
  {
    LastIndexFound(Identity(p), '@', |p.name|);
    LastIndexFound(Identity(q), '@', |q.name|);
    assert Identity(p)[|p.name| + 1..] == p.version && Identity(q)[|q.name| + 1..] == q.version;
    assert Identity(p)[..|p.name|] == p.name && Identity(q)[..|q.name|] == q.name;
  }

  /** A name the closure still has to serve. */
  datatype Item = Item(name: string, optional: bool)

  function Items(names: seq<string>, optional: bool): (r: seq<Item>)
    ensures |r| == |names|
    ensures forall i :: 0 <= i < |names| ==> r[i] == Item(names[i], optional)
  {
    if names == [] then [] else [Item(names[0], optional)] + Items(names[1..], optional)
  }

  function Filter(names: seq<string>, keep: set<string>): (r: seq<string>)
    ensures forall x :: x in r <==> x in names && x in keep
  {
    if names == [] then []
    else if names[0] in keep then [names[0]] + Filter(names[1..], keep)
    else Filter(names[1..], keep)
  }

  /** Optional peers are a list of non-empty names, each of them a peer. */
  ghost predicate PeersMakeSense(m: Metadata) {
    && !m.optionalPeers.Malformed?
    && (m.optionalPeers.Peers? ==>
          forall i :: 0 <= i < |m.optionalPeers.names| ==>
            m.optionalPeers.names[i] != "" && m.optionalPeers.names[i] in m.peerDependencies)
  }

  /** How a record depends on a name, as its four fields say it. */
  ghost predicate DependsOn(m: Metadata, item: Item) {
    var optionalPeer := m.optionalPeers.Peers? && item.name in m.optionalPeers.names;
    if item.optional
    then item.name in m.optionalDependencies || (item.name in m.peerDependencies && optionalPeer)
    else item.name in m.dependencies || (item.name in m.peerDependencies && !optionalPeer)
  }

  /** The items a record adds to the queue, unless its optional peers make no sense. */
  function DependencyItems(m: Metadata): (r: Option<seq<Item>>)
    ensures r.Some? <==> PeersMakeSense(m)
  {
    if m.optionalPeers.Malformed? then None
    else
      var peers := if m.optionalPeers.Peers? then set name | name in m.optionalPeers.names else {};
      var all := set name | name in m.peerDependencies;
      if "" in peers || !(peers <= all) then None
      else Some(Items(m.dependencies + Filter(m.peerDependencies, all - peers), false)
                + Items(m.optionalDependencies + Filter(m.peerDependencies, peers), true))
  }

  /** The items are refused exactly when the optional peers make no sense, and otherwise are exactly what the record
      depends on. */
  lemma DependencyItemsMean(m: Metadata, item: Item)
    ensures DependencyItems(m).Some? <==> PeersMakeSense(m)
    ensures PeersMakeSense(m) ==> (item in DependencyItems(m).value <==> DependsOn(m, item))
  {
    if PeersMakeSense(m) {
      var peers := if m.optionalPeers.Peers? then set name | name in m.optionalPeers.names else {};
      var all := set name | name in m.peerDependencies;
      var required := m.dependencies + Filter(m.peerDependencies, all - peers);
      var optional := m.optionalDependencies + Filter(m.peerDependencies, peers);
      ItemsMean(required, false, item);
      ItemsMean(optional, true, item);
    }
  }

  lemma ItemsMean(names: seq<string>, optional: bool, item: Item)
    ensures item in Items(names, optional) <==> item.optional == optional && item.name in names
  {
    if item.optional == optional && item.name in names {
      var i :| 0 <= i < |names| && names[i] == item.name;
      assert Items(names, optional)[i] == item;
    }
  }

  // ---------------------------------------------------------------- the index by name

  /** The records of one name, in lock order. */
  function Named(packages: seq<Package>, name: string): (r: seq<Package>)
    ensures forall p :: p in r <==> p in packages && p.name == name
  {
    if packages == [] then []
    else
      var before := Named(packages[..|packages| - 1], name);
      assert packages == packages[..|packages| - 1] + [packages[|packages| - 1]];
      if packages[|packages| - 1].name == name then before + [packages[|packages| - 1]] else before
  }

  ghost predicate IsIndex(packages: seq<Package>, byName: map<string, seq<Package>>) {
    forall name :: if name in byName then byName[name] == Named(packages, name) && byName[name] != []
                   else Named(packages, name) == []
  }

  method IndexByName(packages: seq<Package>) returns (byName: map<string, seq<Package>>)
    ensures IsIndex(packages, byName)
  {
    byName := map[];
    for i := 0 to |packages|
      invariant IsIndex(packages[..i], byName)
    {
      var entry := packages[i];
      assert packages[..i + 1][..i] == packages[..i];
      var current := if entry.name in byName then byName[entry.name] else [];
      byName := byName[entry.name := current + [entry]];
    }
    assert packages[..|packages|] == packages;
  }

  // ---------------------------------------------------------------- the installed store

  datatype InstalledManifest = InstalledManifest(name: string, version: string, license: Option<string>)

  function ReplaceSlashes(name: string): (r: string)
    ensures |r| == |name|
    ensures forall i :: 0 <= i < |name| ==> r[i] == if name[i] == '/' then '+' else name[i]
  {
    if name == "" then "" else [if name[0] == '/' then '+' else name[0]] + ReplaceSlashes(name[1..])
  }

  /** A store directory of this name and version: the exact prefix, or the prefix with peer context after `+`. */
  predicate IsEntryOf(directory: string, name: string, version: string) {
    var prefix := ReplaceSlashes(name) + "@" + version;
    directory == prefix || prefix + "+" <= directory
  }

  /** The directory is the name with each slash made a plus, the version, and then some context. */
  ghost predicate IsEntryText(directory: string, name: string, version: string, folded: string, context: string) {
    && directory == folded + "@" + version + context && |folded| == |name|
    && (forall i :: 0 <= i < |name| ==> folded[i] == if name[i] == '/' then '+' else name[i])
    && (context == "" || context[0] == '+')
  }

  /** A directory belongs to a package exactly when it has that text, with no context or one that starts with `+`. */
  lemma EntryOfMeans(directory: string, name: string, version: string)
    ensures IsEntryOf(directory, name, version) <==>
            exists folded, context :: IsEntryText(directory, name, version, folded, context)
  {
    var prefix := ReplaceSlashes(name) + "@" + version;
    if IsEntryOf(directory, name, version) {
      var context := directory[|prefix|..];
      assert directory == prefix + context;
      assert IsEntryText(directory, name, version, ReplaceSlashes(name), context);
    }
    if folded, context :| IsEntryText(directory, name, version, folded, context) {
      assert folded == ReplaceSlashes(name);
      assert directory == prefix + context;
      assert context != "" ==> prefix + "+" == directory[..|prefix| + 1];
    }
  }

  predicate HasInstalledStoreEntry(directories: seq<string>, name: string, version: string) {
    exists i :: 0 <= i < |directories| && IsEntryOf(directories[i], name, version)
  }

  /** Some directory of the store is of this name and version. */
  ghost predicate IsInstalled(directories: seq<string>, name: string, version: string) {
    exists directory, folded, context :: directory in directories && IsEntryText(directory, name, version, folded, context)
  }

  lemma InstalledMeans(directories: seq<string>, name: string, version: string)
    ensures HasInstalledStoreEntry(directories, name, version) <==> IsInstalled(directories, name, version)
  {
    forall directory
      ensures IsEntryOf(directory, name, version) <==>
              exists folded, context :: IsEntryText(directory, name, version, folded, context)
    {
      EntryOfMeans(directory, name, version);
    }
    if i :| 0 <= i < |directories| && IsEntryOf(directories[i], name, version) {
      var folded, context :| IsEntryText(directories[i], name, version, folded, context);
      assert directories[i] in directories;
    }
  }

  /** A directory of the package whose manifest reads (`read`) and has the exact name and version. */
  ghost predicate Resolves(
    read: (string, string) -> Option<InstalledManifest>, directory: string, name: string, version: string)
  {
    && IsEntryOf(directory, name, version)
    && read(directory, name).Some? && read(directory, name).value.name == name && read(directory, name).value.version == version
  }

  /** The first matching directory decides; one whose manifest does not read or names another package is passed over. */
  function FindManifest(
    read: (string, string) -> Option<InstalledManifest>, directories: seq<string>, name: string, version: string)
    : (r: Option<InstalledManifest>)
    ensures r.None? ==> forall i :: 0 <= i < |directories| ==> !Resolves(read, directories[i], name, version)
    ensures r.Some? ==> IsFirst(read, directories, name, version, r)
  {
    if directories == [] then None
    else
      var m := read(directories[0], name);
      if IsEntryOf(directories[0], name, version) && m.Some? && m.value.name == name && m.value.version == version then m
      else
        var rest := FindManifest(read, directories[1..], name, version);
        assert directories == [directories[0]] + directories[1..];
        if rest.Some? then FirstLater(read, directories, name, version, rest); rest else rest
  }

  /** The manifest of the first directory that resolves. */
  ghost predicate IsFirst(
    read: (string, string) -> Option<InstalledManifest>, directories: seq<string>, name: string, version: string,
    r: Option<InstalledManifest>)
  {
    exists i :: 0 <= i < |directories| && Resolves(read, directories[i], name, version) && r == read(directories[i], name)
      && forall k :: 0 <= k < i ==> !Resolves(read, directories[k], name, version)
  }

  lemma FirstLater(
    read: (string, string) -> Option<InstalledManifest>, directories: seq<string>, name: string, version: string,
    r: Option<InstalledManifest>)
    requires directories != [] && !Resolves(read, directories[0], name, version)
    requires IsFirst(read, directories[1..], name, version, r)
    ensures IsFirst(read, directories, name, version, r)
  {
    var later := directories[1..];
    var i :| 0 <= i < |later| && Resolves(read, later[i], name, version) && r == read(later[i], name)
      && forall k :: 0 <= k < i ==> !Resolves(read, later[k], name, version);
    assert directories[i + 1] == later[i];
    forall k | 0 <= k < i + 1
      ensures !Resolves(read, directories[k], name, version)
    {
      if k > 0 {
        assert directories[k] == later[k - 1];
      }
    }
  }
}
