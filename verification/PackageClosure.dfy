/** The second worklist of `scripts/release-sbom.ts`: from the external names of the workspaces to the lockfile
    packages of the release. */
module PackageClosure {
  import opened Wrappers
  import opened Reachability
  import opened LockPackages

  /** What the closure works over: the records by name, the installed store, and its manifests. */
  datatype World = World(
    byName: map<string, seq<Package>>,
    installed: (string, string) -> bool,
    manifest: (string, string) -> Option<InstalledManifest>)

  datatype Chosen = Chosen(package: Package, manifest: InstalledManifest)

  type Selection = map<string, Chosen>

  /** Records are filed under their own name, and versions come from a split at the last separator. */
  ghost predicate IsWorld(w: World) {
    forall name, p :: name in w.byName && p in w.byName[name] ==> p.name == name && '@' !in p.version
  }

  function Candidates(w: World, name: string): seq<Package> {
    if name in w.byName then w.byName[name] else []
  }

  /** An optional item only takes what is installed. */
  predicate Eligible(w: World, item: Item, p: Package) {
    !item.optional || w.installed(p.name, p.version)
  }

  /** The record that stands for an identity: the first one in lock order. */
  function Find(records: seq<Package>, identity: string): (r: Option<Package>)
    ensures r.Some? ==> r.value in records && Identity(r.value) == identity
    ensures r.None? ==> forall p :: p in records ==> Identity(p) != identity
  {
    if records == [] then None
    else if Identity(records[0]) == identity then Some(records[0])
    else Find(records[1..], identity)
  }

  lemma {:induction false} FindFirst(records: seq<Package>, k: nat)
    requires k < |records|
    requires forall i :: 0 <= i < k ==> Identity(records[i]) != Identity(records[k])
    ensures Find(records, Identity(records[k])) == Some(records[k])
  {
    if k > 0 {
      assert Identity(records[0]) != Identity(records[k]);
      assert forall i :: 0 <= i < k - 1 ==> records[1..][i] == records[i + 1];
      FindFirst(records[1..], k - 1);
    }
  }

  /** A record an item brings in. */
  ghost predicate Serves(w: World, item: Item, p: Package) {
    Eligible(w, item, p) && Find(Candidates(w, item.name), Identity(p)) == Some(p)
  }

  /** A record that can be taken: its manifest resolves and its optional peers make sense. */
  ghost predicate Fine(w: World, p: Package) {
    w.manifest(p.name, p.version).Some? && PeersMakeSense(p.metadata)
  }

  /** What a record wants next, as its fields say it. */
  ghost predicate Wants(p: Package, item: Item) {
    PeersMakeSense(p.metadata) && DependsOn(p.metadata, item)
  }

  ghost function Wanted(p: Package): set<Item> {
    if DependencyItems(p.metadata).Some? then set item | item in DependencyItems(p.metadata).value else {}
  }

  lemma WantedMeans(p: Package, item: Item)
    ensures item in Wanted(p) <==> Wants(p, item)
  {
    DependencyItemsMean(p.metadata, item);
  }

  /** Where an item leads: to the items of the records it brings in. */
  ghost function NextItems(w: World, item: Item): set<Item> {
    set p, d | p in Candidates(w, item.name) && Serves(w, item, p) && d in Wanted(p) :: d
  }

  ghost function Next(w: World): Item -> set<Item> {
    (item: Item) => NextItems(w, item)
  }

  ghost function AsSet(queue: seq<Item>): set<Item> {
    set item | item in queue
  }

  ghost predicate Needed(w: World, roots: set<Item>, item: Item) {
    Reachable(roots, Next(w), item)
  }

  /** An item that does not stop the release. */
  ghost predicate Good(w: World, item: Item) {
    && (item.optional || Candidates(w, item.name) != [])
    && forall p :: Serves(w, item, p) ==> Fine(w, p)
  }

  ghost predicate IsNeeded(w: World, roots: set<Item>, p: Package) {
    exists item :: Needed(w, roots, item) && Serves(w, item, p)
  }

  /** The finished selection: exactly the records needed items bring in, each under its identity with its manifest. */
  ghost predicate IsSelection(w: World, roots: set<Item>, s: Selection) {
    && (forall id :: id in s ==>
          var p := s[id].package;
          IsNeeded(w, roots, p) && Identity(p) == id && w.manifest(p.name, p.version) == Some(s[id].manifest))
    && forall p :: IsNeeded(w, roots, p) ==> Identity(p) in s && s[Identity(p)].package == p
  }

  // ---------------------------------------------------------------- one item

  /** Where a chosen record comes from. */
  ghost predicate Comes(w: World, seen: set<Item>, id: string, c: Chosen) {
    && Identity(c.package) == id
    && w.manifest(c.package.name, c.package.version) == Some(c.manifest)
    && DependencyItems(c.package.metadata).Some?
    && exists item :: item in seen && Serves(w, item, c.package)
  }

  ghost predicate Sound(w: World, seen: set<Item>, s: Selection) {
    forall id :: id in s ==> Comes(w, seen, id, s[id])
  }

  /** Everything an item could take has been taken. */
  ghost predicate Taken(w: World, item: Item, records: seq<Package>, s: Selection) {
    forall p :: p in records && Eligible(w, item, p) ==> Identity(p) in s
  }

  ghost predicate Served(w: World, seen: set<Item>, s: Selection) {
    forall item :: item in seen ==>
      (item.optional || Candidates(w, item.name) != []) && Taken(w, item, Candidates(w, item.name), s)
  }

  /** The items of every chosen record are seen or still queued. */
  ghost predicate Spread(seen: set<Item>, queue: seq<Item>, s: Selection) {
    forall id :: id in s ==> forall d :: d in Wanted(s[id].package) ==> d in seen || d in queue
  }

  ghost predicate AllNeeded(w: World, roots: set<Item>, items: set<Item>) {
    forall item :: item in items ==> Needed(w, roots, item)
  }

  ghost predicate Serving(w: World, roots: set<Item>, seen: set<Item>, item: Item, k: nat, s: Selection, queue: seq<Item>) {
    && k <= |Candidates(w, item.name)|
    && Sound(w, seen + {item}, s)
    && Taken(w, item, Candidates(w, item.name)[..k], s)
    && Served(w, seen, s)
    && Spread(seen + {item}, queue, s)
    && AllNeeded(w, roots, seen + {item} + AsSet(queue))
    && roots <= seen + {item} + AsSet(queue)
  }

  lemma PrefixGrows<T>(xs: seq<T>, k: nat)
    requires k < |xs|
    ensures xs[..k + 1] == xs[..k] + [xs[k]]
  {
  }

  /** A candidate already chosen, or not eligible, is passed over. */
  lemma PassOver(w: World, roots: set<Item>, seen: set<Item>, item: Item, k: nat, s: Selection, queue: seq<Item>)
    requires Serving(w, roots, seen, item, k, s, queue) && k < |Candidates(w, item.name)|
    requires var p := Candidates(w, item.name)[k]; Identity(p) in s || !Eligible(w, item, p)
    ensures Serving(w, roots, seen, item, k + 1, s, queue)
  {
    PrefixGrows(Candidates(w, item.name), k);
  }

  /** A candidate not yet chosen is the first of its identity. */
  lemma FirstOfIdentity(w: World, item: Item, k: nat, s: Selection)
    requires IsWorld(w) && k < |Candidates(w, item.name)|
    requires Taken(w, item, Candidates(w, item.name)[..k], s)
    requires var p := Candidates(w, item.name)[k]; Identity(p) !in s && Eligible(w, item, p)
    ensures Serves(w, item, Candidates(w, item.name)[k])
  {
    var cs := Candidates(w, item.name);
    forall i | 0 <= i < k
      ensures Identity(cs[i]) != Identity(cs[k])
    {
      assert cs[i] in cs[..k] && cs[i] in cs && cs[k] in cs;
      if Identity(cs[i]) == Identity(cs[k]) {
        IdentityInjective(cs[i], cs[k]);
      }
    }
    FindFirst(cs, k);
  }

  lemma ChooseKeepsSound(w: World, seen: set<Item>, item: Item, s: Selection, p: Package, m: InstalledManifest)
    requires Sound(w, seen, s) && item in seen && Serves(w, item, p) && DependencyItems(p.metadata).Some?
    requires w.manifest(p.name, p.version) == Some(m) && Identity(p) !in s
    ensures Sound(w, seen, s[Identity(p) := Chosen(p, m)])
  {
  }

  lemma ChooseKeepsSpread(seen: set<Item>, queue: seq<Item>, s: Selection, p: Package, m: InstalledManifest, more: seq<Item>)
    requires Spread(seen, queue, s) && DependencyItems(p.metadata) == Some(more)
    ensures Spread(seen, queue + more, s[Identity(p) := Chosen(p, m)])
  {
  }

  lemma ChooseKeepsServed(w: World, seen: set<Item>, item: Item, records: seq<Package>, s: Selection, p: Package, c: Chosen)
    requires Served(w, seen, s) && Taken(w, item, records, s)
    ensures Served(w, seen, s[Identity(p) := c]) && Taken(w, item, records + [p], s[Identity(p) := c])
  {
  }

  lemma ChooseKeepsNeeded(w: World, roots: set<Item>, all: set<Item>, item: Item, p: Package, more: seq<Item>)
    requires AllNeeded(w, roots, all) && item in all && Serves(w, item, p) && DependencyItems(p.metadata) == Some(more)
    ensures AllNeeded(w, roots, all + AsSet(more))
  {
    forall d | d in more
      ensures Needed(w, roots, d)
    {
      assert d in Wanted(p);
      assert d in NextItems(w, item);
      StepReached(roots, Next(w), item, d);
    }
  }

  lemma AsSetConcat(a: seq<Item>, b: seq<Item>)
    ensures AsSet(a + b) == AsSet(a) + AsSet(b)
  {
  }

  lemma Choose(w: World, roots: set<Item>, seen: set<Item>, item: Item, k: nat, s: Selection, queue: seq<Item>,
    m: InstalledManifest, more: seq<Item>)
    requires IsWorld(w) && Serving(w, roots, seen, item, k, s, queue) && k < |Candidates(w, item.name)|
    requires var p := Candidates(w, item.name)[k];
             && Identity(p) !in s && Eligible(w, item, p)
             && w.manifest(p.name, p.version) == Some(m) && DependencyItems(p.metadata) == Some(more)
    ensures var p := Candidates(w, item.name)[k];
            Serving(w, roots, seen, item, k + 1, s[Identity(p) := Chosen(p, m)], queue + more)
  {
    var p := Candidates(w, item.name)[k];
    FirstOfIdentity(w, item, k, s);
    ChooseKeepsSound(w, seen + {item}, item, s, p, m);
    ChooseKeepsSpread(seen + {item}, queue, s, p, m, more);
    ChooseKeepsServed(w, seen, item, Candidates(w, item.name)[..k], s, p, Chosen(p, m));
    PrefixGrows(Candidates(w, item.name), k);
    ChooseKeepsNeeded(w, roots, seen + {item} + AsSet(queue), item, p, more);
    AsSetConcat(queue, more);
    assert seen + {item} + AsSet(queue + more) == (seen + {item} + AsSet(queue)) + AsSet(more);
  }

  ghost function Identities(w: World): set<string> {
    set name, p | name in w.byName && p in w.byName[name] :: Identity(p)
  }

  /** Work left: identities not yet chosen. */
  ghost function Left(w: World, s: Selection): nat {
    Missing(Identities(w), s)
  }

  ghost function Missing(all: set<string>, s: Selection): nat {
    |all - s.Keys|
  }

  lemma OneLess(all: set<string>, s: Selection, id: string, c: Chosen)
    requires id in all && id !in s
    ensures Missing(all, s[id := c]) < Missing(all, s)
  {
    assert all - s[id := c].Keys == (all - s.Keys) - {id};
  }

  lemma IsAnIdentity(w: World, name: string, p: Package)
    requires p in Candidates(w, name)
    ensures Identity(p) in Identities(w)
  {
  }

  lemma ChoosingShrinks(w: World, s: Selection, name: string, p: Package, c: Chosen)
    requires p in Candidates(w, name) && Identity(p) !in s
    ensures Left(w, s[Identity(p) := c]) < Left(w, s)
  {
    IsAnIdentity(w, name, p);
    OneLess(Identities(w), s, Identity(p), c);
  }

  /** Takes every candidate of an item, or reports that the item cannot be served. */
  method ServeItem(w: World, ghost roots: set<Item>, ghost seen: set<Item>, item: Item, s0: Selection, queue0: seq<Item>)
    returns (served: bool, s: Selection, queue: seq<Item>)
    requires IsWorld(w) && Serving(w, roots, seen, item, 0, s0, queue0)
    ensures served ==> Serving(w, roots, seen, item, |Candidates(w, item.name)|, s, queue)
    ensures served ==> (s == s0 && queue == queue0) || Left(w, s) < Left(w, s0)
    ensures !served ==> exists p :: Serves(w, item, p) && !Fine(w, p)
  {
    s, queue := s0, queue0;
    var candidates := Candidates(w, item.name);
    for k := 0 to |candidates|
      invariant Serving(w, roots, seen, item, k, s, queue)
      invariant (s == s0 && queue == queue0) || Left(w, s) < Left(w, s0)
    {
      var p := candidates[k];
      if Identity(p) in s || (item.optional && !w.installed(p.name, p.version)) {
        PassOver(w, roots, seen, item, k, s, queue);
      } else {
        var manifest := w.manifest(p.name, p.version);
        var more := DependencyItems(p.metadata);
        if manifest == None || more == None {
          FirstOfIdentity(w, item, k, s);
          return false, s, queue;
        }
        Choose(w, roots, seen, item, k, s, queue, manifest.value, more.value);
        ChoosingShrinks(w, s, item.name, p, Chosen(p, manifest.value));
        s := s[Identity(p) := Chosen(p, manifest.value)];
        queue := queue + more.value;
      }
    }
    served := true;
  }

  // ---------------------------------------------------------------- the worklist

  ghost predicate Selecting(w: World, roots: set<Item>, seen: set<Item>, s: Selection, queue: seq<Item>) {
    && Sound(w, seen, s) && Served(w, seen, s) && Spread(seen, queue, s)
    && AllNeeded(w, roots, seen + AsSet(queue))
    && roots <= seen + AsSet(queue)
  }

  lemma SelectStart(w: World, queue: seq<Item>)
    ensures Selecting(w, AsSet(queue), {}, map[], queue)
  {
    forall item | item in AsSet(queue)
      ensures Needed(w, AsSet(queue), item)
    {
      RootReached(AsSet(queue), Next(w), item);
    }
  }

  lemma TakeHead(w: World, roots: set<Item>, seen: set<Item>, s: Selection, queue: seq<Item>)
    requires Selecting(w, roots, seen, s, queue) && queue != []
    ensures Serving(w, roots, seen, queue[0], 0, s, queue[1..])
  {
    assert queue == [queue[0]] + queue[1..];
    assert seen + {queue[0]} + AsSet(queue[1..]) == seen + AsSet(queue);
  }

  lemma HeadServed(w: World, roots: set<Item>, seen: set<Item>, item: Item, s: Selection, queue: seq<Item>)
    requires Serving(w, roots, seen, item, |Candidates(w, item.name)|, s, queue)
    requires item.optional || Candidates(w, item.name) != []
    ensures Selecting(w, roots, seen + {item}, s, queue)
  {
    var cs := Candidates(w, item.name);
    assert cs[..|cs|] == cs;
  }

  /** The record chosen for an identity is the one every item would bring in. */
  lemma SamePackage(w: World, seen: set<Item>, s: Selection, item: Item, p: Package)
    requires IsWorld(w) && Sound(w, seen, s) && Serves(w, item, p) && Identity(p) in s
    ensures s[Identity(p)].package == p
  {
    var q := s[Identity(p)].package;
    assert Comes(w, seen, Identity(p), s[Identity(p)]);
    var other :| other in seen && Serves(w, other, q);
    IdentityInjective(p, q);
  }

  lemma SeenIsClosed(w: World, roots: set<Item>, seen: set<Item>, s: Selection)
    requires IsWorld(w) && Selecting(w, roots, seen, s, [])
    ensures Closed(roots, Next(w), seen)
  {
    forall item, p, d | item in seen && Serves(w, item, p) && d in Wanted(p)
      ensures d in seen
    {
      assert p in Candidates(w, item.name) && Eligible(w, item, p);
      SamePackage(w, seen, s, item, p);
    }
  }

  /** At the end the seen items are exactly the needed ones. */
  lemma SeenIsNeeded(w: World, roots: set<Item>, seen: set<Item>, s: Selection)
    requires IsWorld(w) && Selecting(w, roots, seen, s, [])
    ensures forall item :: item in seen <==> Needed(w, roots, item)
  {
    SeenIsClosed(w, roots, seen, s);
    ReachableIsLeast(roots, Next(w), seen);
    assert seen + AsSet([]) == seen;
  }

  lemma ServedIsChosen(w: World, seen: set<Item>, s: Selection, item: Item, p: Package)
    requires IsWorld(w) && Sound(w, seen, s) && Served(w, seen, s)
    requires item in seen && Serves(w, item, p)
    ensures Identity(p) in s && s[Identity(p)].package == p && Fine(w, p)
  {
    assert p in Candidates(w, item.name);
    SamePackage(w, seen, s, item, p);
    assert Comes(w, seen, Identity(p), s[Identity(p)]);
  }

  lemma AllSeenGood(w: World, seen: set<Item>, s: Selection)
    requires IsWorld(w) && Sound(w, seen, s) && Served(w, seen, s)
    ensures forall item :: item in seen ==> Good(w, item)
  {
    forall item, p | item in seen && Serves(w, item, p)
      ensures Fine(w, p)
    {
      ServedIsChosen(w, seen, s, item, p);
    }
  }

  lemma SeenSelected(w: World, roots: set<Item>, seen: set<Item>, s: Selection)
    requires IsWorld(w) && Sound(w, seen, s) && Served(w, seen, s)
    requires forall item :: item in seen <==> Needed(w, roots, item)
    ensures IsSelection(w, roots, s)
  {
    forall p | IsNeeded(w, roots, p)
      ensures Identity(p) in s && s[Identity(p)].package == p
    {
      var item :| Needed(w, roots, item) && Serves(w, item, p);
      ServedIsChosen(w, seen, s, item, p);
    }
    forall id | id in s
      ensures IsNeeded(w, roots, s[id].package)
    {
      assert Comes(w, seen, id, s[id]);
      var item :| item in seen && Serves(w, item, s[id].package);
      assert Needed(w, roots, item);
    }
  }

  lemma SelectEnd(w: World, roots: set<Item>, seen: set<Item>, s: Selection)
    requires IsWorld(w) && Selecting(w, roots, seen, s, [])
    ensures forall item :: Needed(w, roots, item) ==> Good(w, item)
    ensures IsSelection(w, roots, s)
  {
    SeenIsNeeded(w, roots, seen, s);
    AllSeenGood(w, seen, s);
    SeenSelected(w, roots, seen, s);
  }

  lemma HeadNeeded(w: World, roots: set<Item>, seen: set<Item>, s: Selection, queue: seq<Item>)
    requires Selecting(w, roots, seen, s, queue) && queue != []
    ensures Needed(w, roots, queue[0])
  {
    assert queue[0] in seen + AsSet(queue);
  }

  /** The worklist succeeds exactly when no needed item stops the release. */
  method SelectPackages(w: World, start: seq<Item>) returns (r: Option<Selection>)
    requires IsWorld(w)
    ensures r.Some? <==> forall item :: Needed(w, AsSet(start), item) ==> Good(w, item)
    ensures r.Some? ==> IsSelection(w, AsSet(start), r.value)
  {
    var queue: seq<Item>, s: Selection := start, map[];
    ghost var roots, seen := AsSet(start), {};
    SelectStart(w, start);
    while queue != []
      invariant Selecting(w, roots, seen, s, queue)
      decreases Left(w, s), |queue|
    {
      var item := queue[0];
      TakeHead(w, roots, seen, s, queue);
      HeadNeeded(w, roots, seen, s, queue);
      if Candidates(w, item.name) == [] && !item.optional {
        assert !Good(w, item);
        return None;
      }
      var served, chosen, more := ServeItem(w, roots, seen, item, s, queue[1..]);
      if !served {
        assert !Good(w, item);
        return None;
      }
      HeadServed(w, roots, seen, item, chosen, more);
      s, queue, seen := chosen, more, seen + {item};
    }
    SelectEnd(w, roots, seen, s);
    r := Some(s);
  }

  // ---------------------------------------------------------------- what the selection is

  /** The selection depends on the set of items the closure starts from and on nothing else, such as their order. */
  lemma SelectionUnique(w: World, roots: set<Item>, a: Selection, b: Selection)
    requires IsSelection(w, roots, a) && IsSelection(w, roots, b)
    ensures a == b
  {
    forall id
      ensures id in a ==> id in b && b[id] == a[id]
      ensures id in b ==> id in a
    {
      if id in a {
        assert IsNeeded(w, roots, a[id].package);
      }
      if id in b {
        assert IsNeeded(w, roots, b[id].package);
      }
    }
  }

  ghost function Packages(s: Selection): set<Package> {
    set id | id in s :: s[id].package
  }

  /** A set of records that serves the starting items and the items of its own members. */
  ghost predicate ClosedUnder(w: World, roots: set<Item>, packages: set<Package>) {
    forall item, p :: (item in roots || WantedBy(packages, item)) && Serves(w, item, p) ==> p in packages
  }

  ghost predicate WantedBy(packages: set<Package>, item: Item) {
    exists q :: q in packages && Wants(q, item)
  }

  lemma SelectionIsClosed(w: World, roots: set<Item>, s: Selection)
    requires IsSelection(w, roots, s)
    ensures ClosedUnder(w, roots, Packages(s))
  {
    forall item, p | (item in roots || WantedBy(Packages(s), item)) && Serves(w, item, p)
      ensures p in Packages(s)
    {
      if item in roots {
        RootReached(roots, Next(w), item);
      } else {
        var q :| q in Packages(s) && Wants(q, item);
        WantedMeans(q, item);
        assert IsNeeded(w, roots, q);
        var other :| Needed(w, roots, other) && Serves(w, other, q);
        assert item in NextItems(w, other);
        StepReached(roots, Next(w), other, item);
      }
      assert IsNeeded(w, roots, p);
    }
  }

  /** The items a closed set answers for. */
  ghost function ItemsOf(roots: set<Item>, packages: set<Package>): set<Item> {
    roots + set q, item | q in packages && item in Wanted(q) :: item
  }

  lemma ItemsAreWanted(roots: set<Item>, packages: set<Package>, item: Item)
    ensures item in ItemsOf(roots, packages) <==> item in roots || WantedBy(packages, item)
  {
    if item in ItemsOf(roots, packages) && item !in roots {
      var q :| q in packages && item in Wanted(q);
      WantedMeans(q, item);
    }
    if WantedBy(packages, item) {
      var q :| q in packages && Wants(q, item);
      WantedMeans(q, item);
    }
  }

  lemma ItemsStayInside(w: World, roots: set<Item>, packages: set<Package>)
    requires ClosedUnder(w, roots, packages)
    ensures Closed(roots, Next(w), ItemsOf(roots, packages))
  {
    forall item, p, d | item in ItemsOf(roots, packages) && Serves(w, item, p) && d in Wanted(p)
      ensures d in ItemsOf(roots, packages)
    {
      ItemsAreWanted(roots, packages, item);
      assert p in packages;
    }
  }

  /** The selection is the least closed set: closed under required names and installed optional ones, and contained
      in every set that is. */
  lemma SelectionIsLeast(w: World, roots: set<Item>, s: Selection, packages: set<Package>)
    requires IsSelection(w, roots, s) && ClosedUnder(w, roots, packages)
    ensures ClosedUnder(w, roots, Packages(s)) && Packages(s) <= packages
  {
    SelectionIsClosed(w, roots, s);
    ItemsStayInside(w, roots, packages);
    ReachableIsLeast(roots, Next(w), ItemsOf(roots, packages));
    forall id | id in s
      ensures s[id].package in packages
    {
      var p := s[id].package;
      var item :| Needed(w, roots, item) && Serves(w, item, p);
      ItemsAreWanted(roots, packages, item);
    }
  }

  // ---------------------------------------------------------------- what brings a record in

  lemma {:induction false} FindIsFirst(records: seq<Package>, p: Package)
    ensures Find(records, Identity(p)) == Some(p) <==>
            exists k :: 0 <= k < |records| && records[k] == p && forall j :: 0 <= j < k ==> Identity(records[j]) != Identity(p)
  {
    if k :| 0 <= k < |records| && records[k] == p && forall j :: 0 <= j < k ==> Identity(records[j]) != Identity(p) {
      FindFirst(records, k);
    }
    if Find(records, Identity(p)) == Some(p) {
      FoundFirst(records, p);
    }
  }

  lemma {:induction false} FoundFirst(records: seq<Package>, p: Package)
    requires Find(records, Identity(p)) == Some(p)
    ensures exists k :: 0 <= k < |records| && records[k] == p && forall j :: 0 <= j < k ==> Identity(records[j]) != Identity(p)
  {
    if Identity(records[0]) != Identity(p) {
      FoundFirst(records[1..], p);
      var k :| 0 <= k < |records[1..]| && records[1..][k] == p
        && forall j :: 0 <= j < k ==> Identity(records[1..][j]) != Identity(p);
      assert records[k + 1] == p;
      forall j | 0 <= j < k + 1
        ensures Identity(records[j]) != Identity(p)
      {
        assert j > 0 ==> records[j] == records[1..][j - 1];
      }
    } else {
      assert records[0] == p;
    }
  }

  /** The first record of the lockfile with its identity. */
  ghost predicate IsFirstRecord(packages: seq<Package>, p: Package) {
    exists k :: 0 <= k < |packages| && packages[k] == p && forall j :: 0 <= j < k ==> Identity(packages[j]) != Identity(p)
  }

  lemma {:induction false} NamedFirst(packages: seq<Package>, name: string, p: Package)
    requires p.name == name && forall q :: q in packages ==> '@' !in q.version
    ensures IsFirstRecord(Named(packages, name), p) <==> IsFirstRecord(packages, p)
  {
    if packages == [] {
    } else {
      var before, last := packages[..|packages| - 1], packages[|packages| - 1];
      assert packages == before + [last];
      NamedFirst(before, name, p);
      FirstSnoc(before, last, p);
      if last.name == name {
        FirstSnoc(Named(before, name), last, p);
        SameIdentities(before, name, last);
      } else if last == p {
        assert false;
      }
    }
  }

  lemma FirstSnoc(before: seq<Package>, last: Package, p: Package)
    ensures IsFirstRecord(before + [last], p) <==>
            IsFirstRecord(before, p) || (last == p && forall q :: q in before ==> Identity(q) != Identity(p))
  {
    var all := before + [last];
    if IsFirstRecord(before, p) {
      var k :| 0 <= k < |before| && before[k] == p && forall j :: 0 <= j < k ==> Identity(before[j]) != Identity(p);
      assert all[k] == p;
    } else if last == p && forall q :: q in before ==> Identity(q) != Identity(p) {
      assert all[|before|] == p;
    }
    if IsFirstRecord(all, p) {
      var k :| 0 <= k < |all| && all[k] == p && forall j :: 0 <= j < k ==> Identity(all[j]) != Identity(p);
      if k < |before| {
        assert before[k] == p;
        assert forall j :: 0 <= j < k ==> before[j] == all[j];
      } else {
        forall q | q in before
          ensures Identity(q) != Identity(p)
        {
          var j :| 0 <= j < |before| && before[j] == q;
          assert all[j] == q;
        }
      }
    }
  }

  lemma SameIdentities(before: seq<Package>, name: string, p: Package)
    requires p.name == name && '@' !in p.version && forall q :: q in before ==> '@' !in q.version
    ensures (forall q :: q in before ==> Identity(q) != Identity(p)) <==>
            (forall q :: q in Named(before, name) ==> Identity(q) != Identity(p))
  {
    forall q | q in before && Identity(q) == Identity(p)
      ensures q in Named(before, name)
    {
      IdentityInjective(q, p);
    }
  }

  /** An item brings in a record exactly when the record has its name, is the first of its identity in the whole
      lockfile, and is installed if the item is optional. */
  lemma ServesFirstRecord(w: World, packages: seq<Package>, item: Item, p: Package)
    requires IsIndex(packages, w.byName) && forall q :: q in packages ==> '@' !in q.version
    ensures Serves(w, item, p) <==>
            p.name == item.name && IsFirstRecord(packages, p) && (item.optional ==> w.installed(p.name, p.version))
  {
    assert Candidates(w, item.name) == Named(packages, item.name);
    FindIsFirst(Named(packages, item.name), p);
    if p.name == item.name {
      NamedFirst(packages, item.name, p);
    }
  }
}
