/** `createReleaseSbom` of `scripts/release-sbom.ts` from the lockfile and the source workspaces to the bill of
    materials: the two closures and the assembly, one after the other. */
module SbomResolution {
  import opened Wrappers
  import opened Sorting
  import opened Workspaces
  import opened WorkspaceClosure
  import opened LockPackages
  import opened PackageClosure
  import opened Lists
  import opened Components
  import opened RootGraph
  import opened ReleaseSbom
  import ComponentText

  // ---------------------------------------------------------------- the lockfile's workspaces

  datatype LockWorkspace = LockWorkspace(name: Option<string>, manifest: Manifest)

  ghost predicate HasName(w: LockWorkspace) {
    w.name.Some? && w.name.value != ""
  }

  ghost predicate NamesDistinct(list: seq<LockWorkspace>) {
    forall i, j :: 0 <= i < j < |list| && HasName(list[i]) && HasName(list[j]) ==> list[i].name != list[j].name
  }

  ghost predicate IsByName(list: seq<LockWorkspace>, byName: map<string, Manifest>) {
    && (forall i :: 0 <= i < |list| && HasName(list[i]) ==>
          list[i].name.value in byName && byName[list[i].name.value] == list[i].manifest)
    && forall name :: name in byName ==> exists i :: 0 <= i < |list| && HasName(list[i]) && list[i].name.value == name
  }

  /** The workspaces by name; one without a name is passed over, and a repeated name is an error. */
  method WorkspacesByName(list: seq<LockWorkspace>) returns (r: Option<map<string, Manifest>>)
    ensures r.Some? <==> NamesDistinct(list)
    ensures r.Some? ==> IsByName(list, r.value)
  {
    var byName: map<string, Manifest> := map[];
    for i := 0 to |list|
      invariant NamesDistinct(list[..i]) && IsByName(list[..i], byName)
    {
      var w := list[i];
      assert forall k :: 0 <= k < i ==> list[..i][k] == list[k] == list[..i + 1][k];
      assert list[..i + 1][i] == w;
      if w.name.Some? && w.name.value != "" {
        if w.name.value in byName {
          ghost var k :| 0 <= k < i && HasName(list[..i][k]) && list[..i][k].name.value == w.name.value;
          assert HasName(list[k]) && list[k].name == list[i].name;
          return None;
        }
        byName := byName[w.name.value := w.manifest];
      }
    }
    assert list[..|list|] == list;
    r := Some(byName);
  }

  lemma ByNameUnique(list: seq<LockWorkspace>, a: map<string, Manifest>, b: map<string, Manifest>)
    requires IsByName(list, a) && IsByName(list, b)
    ensures a == b
  {
    forall name
      ensures name in a <==> name in b
      ensures name in a && name in b ==> a[name] == b[name]
    {
      if name in a {
        var i :| 0 <= i < |list| && HasName(list[i]) && list[i].name.value == name;
      }
      if name in b {
        var i :| 0 <= i < |list| && HasName(list[i]) && list[i].name.value == name;
      }
    }
  }

  // ---------------------------------------------------------------- the lockfile's packages

  datatype LockRecord = LockRecord(key: string, locator: string, metadata: Metadata, integrity: Option<string>)

  ghost predicate IsRead(record: LockRecord, p: Package) {
    && Identity(p) == record.locator && p.name != "" && p.version != "" && '@' !in p.version
    && p.key == record.key && p.metadata == record.metadata && p.integrity == record.integrity
  }

  ghost predicate AreRead(records: seq<LockRecord>, packages: seq<Package>) {
    |packages| == |records| && forall i :: 0 <= i < |records| ==> IsRead(records[i], packages[i])
  }

  method ReadPackages(records: seq<LockRecord>) returns (r: Option<seq<Package>>)
    ensures r.Some? <==> forall i :: 0 <= i < |records| ==> ParseLocator(records[i].locator).Some?
    ensures r.Some? ==> AreRead(records, r.value)
  {
    var packages: seq<Package> := [];
    for i := 0 to |records|
      invariant |packages| == i
      invariant forall k :: 0 <= k < i ==> ParseLocator(records[k].locator).Some? && IsRead(records[k], packages[k])
    {
      var locator := ParseLocator(records[i].locator);
      if locator == None {
        return None;
      }
      LocatorSplits(records[i].locator, locator.value.0, locator.value.1);
      packages := packages + [Package(records[i].key, locator.value.0, locator.value.1, records[i].metadata, records[i].integrity)];
    }
    r := Some(packages);
  }

  // ---------------------------------------------------------------- from names to items

  /** Names in any order. */
  method ListNames(names: set<string>) returns (r: seq<string>)
    ensures forall x :: x in r <==> x in names
  {
    r := [];
    var left := names;
    while left != {}
      invariant left <= names
      invariant forall x :: x in r <==> x in names && x !in left
      decreases |left|
    {
      var name :| name in left;
      r := r + [name];
      left := left - {name};
    }
  }

  ghost function StartItems(v: Inventory): set<Item> {
    (set name | name in v.required :: Item(name, false)) + (set name | name in v.optional :: Item(name, true))
  }

  method ListStart(v: Inventory) returns (queue: seq<Item>)
    ensures AsSet(queue) == StartItems(v)
  {
    var required := ListNames(v.required);
    var optional := ListNames(v.optional);
    queue := Items(required, false) + Items(optional, true);
    forall item
      ensures item in queue <==> item in StartItems(v)
    {
      ItemsMean(required, false, item);
      ItemsMean(optional, true, item);
    }
  }

  function StoreWorld(
    byName: map<string, seq<Package>>, directories: seq<string>, read: (string, string) -> Option<InstalledManifest>): World
  {
    World(byName,
          (name, version) => HasInstalledStoreEntry(directories, name, version),
          (name, version) => FindManifest(read, directories, name, version))
  }

  /** What the closure finds in the lockfile and the installed store: the records as filed, a package as installed
      exactly when a directory of the store is of its name and version, and the manifest of the first of them whose
      own name and version are these. */
  ghost predicate IsStoreWorld(
    w: World, byName: map<string, seq<Package>>, directories: seq<string>, read: (string, string) -> Option<InstalledManifest>)
  {
    && w.byName == byName
    && (forall name, version :: w.installed(name, version) <==> IsInstalled(directories, name, version))
    && forall name, version ::
         if w.manifest(name, version).Some? then IsFirst(read, directories, name, version, w.manifest(name, version))
         else forall i :: 0 <= i < |directories| ==> !Resolves(read, directories[i], name, version)
  }

  lemma StoreWorldMeans(
    byName: map<string, seq<Package>>, directories: seq<string>, read: (string, string) -> Option<InstalledManifest>)
    ensures IsStoreWorld(StoreWorld(byName, directories, read), byName, directories, read)
  {
    forall name, version
      ensures HasInstalledStoreEntry(directories, name, version) <==> IsInstalled(directories, name, version)
    {
      InstalledMeans(directories, name, version);
    }
  }

  lemma IndexIsWorld(
    packages: seq<Package>, byName: map<string, seq<Package>>, directories: seq<string>,
    read: (string, string) -> Option<InstalledManifest>)
    requires IsIndex(packages, byName) && forall p :: p in packages ==> '@' !in p.version
    ensures IsWorld(StoreWorld(byName, directories, read))
  {
  }

  lemma SelectionIsNamed(w: World, roots: set<Item>, s: Selection)
    requires IsWorld(w) && IsSelection(w, roots, s)
    ensures IsNamed(s)
  {
    forall id | id in s
      ensures '@' !in s[id].package.version
    {
      var p := s[id].package;
      var item :| PackageClosure.Needed(w, roots, item) && Serves(w, item, p);
      assert p in Candidates(w, item.name);
    }
  }

  ghost const ROOTS := ["ralph", "@ralph/launcher"]

  // ---------------------------------------------------------------- the whole resolution

  ghost predicate WorkspacesPass(inherited: set<string>, workspaces: seq<LockWorkspace>, source: map<string, Manifest>) {
    && NamesDistinct(workspaces)
    && forall lock, name :: IsByName(workspaces, lock) && WorkspaceClosure.Needed(source, ROOTS, name) ==>
         Passes(inherited, lock, source, name)
  }

  /** Every stage has what it needs: workspaces pass, locators parse, needed items are good, and the selected
      packages have a license and a well-formed integrity. */
  ghost predicate CanResolve(
    inherited: set<string>, workspaces: seq<LockWorkspace>, source: map<string, Manifest>, records: seq<LockRecord>,
    directories: seq<string>, read: (string, string) -> Option<InstalledManifest>, hex: string -> Option<string>)
  {
    && WorkspacesPass(inherited, workspaces, source)
    && (forall i :: 0 <= i < |records| ==> ParseLocator(records[i].locator).Some?)
    && (forall v, packages, byName :: IsInventory(source, ROOTS, v) && AreRead(records, packages) && IsIndex(packages, byName) ==>
          PackagesResolve(StoreWorld(byName, directories, read), StartItems(v), hex))
  }

  ghost predicate PackagesResolve(w: World, roots: set<Item>, hex: string -> Option<string>) {
    && (forall item :: PackageClosure.Needed(w, roots, item) ==> Good(w, item))
    && forall s :: IsSelection(w, roots, s) ==> AllDescribed(hex, s)
  }

  /** The workspaces a release needs, or none when one of them does not pass. */
  method ResolveWorkspaces(inherited: set<string>, workspaces: seq<LockWorkspace>, source: map<string, Manifest>)
    returns (r: Option<Inventory>)
    ensures r.Some? <==> WorkspacesPass(inherited, workspaces, source)
    ensures r.Some? ==> IsInventory(source, ROOTS, r.value)
  {
    var lock := WorkspacesByName(workspaces);
    if lock == None {
      return None;
    }
    r := VisitWorkspaces(inherited, lock.value, source, ["ralph", "@ralph/launcher"]);
    if r.Some? {
      forall other, name | IsByName(workspaces, other) && WorkspaceClosure.Needed(source, ROOTS, name)
        ensures Passes(inherited, other, source, name)
      {
        ByNameUnique(workspaces, other, lock.value);
      }
    }
  }

  /** Resolves a release. The ghost results are the workspaces, the packages by name and the selection behind it. */
  method ResolveRelease(
    inherited: set<string>, workspaces: seq<LockWorkspace>, source: map<string, Manifest>, records: seq<LockRecord>,
    directories: seq<string>, read: (string, string) -> Option<InstalledManifest>,
    hex: string -> Option<string>, openCode: OpenCode, bun: Option<BunCuration>, release: Release)
    returns (r: Option<Bom>, ghost v: Inventory, ghost byName: map<string, seq<Package>>, ghost s: Selection)
    ensures CanResolve(inherited, workspaces, source, records, directories, read, hex) ==> r.Some?
    ensures r.Some? ==> WorkspacesPass(inherited, workspaces, source) && IsInventory(source, ROOTS, v)
    ensures r.Some? ==> exists packages :: AreRead(records, packages) && IsIndex(packages, byName)
    ensures r.Some? ==> IsSelection(StoreWorld(byName, directories, read), StartItems(v), s) && IsNamed(s)
    ensures r.Some? ==> IsRelease(hex, s, openCode, bun, release, r.value)
    ensures r.Some? ==> IsBill(hex, s, openCode, bun, release, r.value)
  {
    v, byName, s := Inventory({}, {}, {}), map[], map[];
    var inventory := ResolveWorkspaces(inherited, workspaces, source);
    if inventory == None {
      return None, v, byName, s;
    }
    v := inventory.value;
    var packages := ReadPackages(records);
    if packages == None {
      return None, v, byName, s;
    }
    var index := IndexByName(packages.value);
    byName := index;
    IndexIsWorld(packages.value, index, directories, read);
    var queue := ListStart(inventory.value);
    var selection := SelectPackages(StoreWorld(index, directories, read), queue);
    if selection == None {
      return None, v, byName, s;
    }
    s := selection.value;
    SelectionIsNamed(StoreWorld(index, directories, read), StartItems(v), s);
    r := CreateReleaseSbom(hex, selection.value, openCode, bun, release);
  }

  /** A reader of an accepted bill finds the expected runtime component itself, not just one like it. */
  lemma EmbeddedIsExact(bom: Bom, bun: Component)
    requires IsExact(bom, Some(bun), ComponentText.Text)
    ensures Where(IsBunRuntime, bom.components) == [bun]
  {
    var embedded := Where(IsBunRuntime, bom.components);
    ComponentText.TextDecidesComponent(embedded[0], bun);
  }
}
