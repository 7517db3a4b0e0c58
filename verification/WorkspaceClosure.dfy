/** The first worklist of `scripts/release-sbom.ts`: from the two shipped workspaces to every workspace they
    need, with the external names met on the way. */
module WorkspaceClosure {
  import opened Wrappers
  import opened Reachability
  import opened Workspaces

  // ---------------------------------------------------------------- one workspace's dependencies

  ghost predicate MergedIsWorkspace(merged: Record, name: string) {
    name in merged && IsWorkspaceSpecifier(merged[name])
  }

  lemma SpecifierIsMerged(inherited: set<string>, m: Manifest, merged: Record, name: string)
    requires Consistent(inherited, m) && IsRuntimeMap(m, merged)
    ensures DeclaresWorkspace(m, name) <==> MergedIsWorkspace(merged, name)
  {
    MapHolds(inherited, m, merged);
    if DeclaresWorkspace(m, name) {
      assert name in m.dependencies ==> Declares(m, name, m.dependencies[name]);
      assert name in m.optionalDependencies ==> Declares(m, name, m.optionalDependencies[name]);
      assert name in m.peerDependencies ==> Declares(m, name, m.peerDependencies[name]);
    }
    if MergedIsWorkspace(merged, name) {
      assert Declares(m, name, merged[name]);
    }
  }

  /** The dependencies sorted so far: `left` holds the names still to be sorted into `names`, those of workspaces,
      and the `required` and `optional` rest. */
  ghost predicate Splitting(
    names: set<string>, allRequired: set<string>, allOptional: set<string>, left: set<string>,
    queue: seq<string>, required: set<string>, optional: set<string>)
  {
    && (forall d :: d in queue <==> d in names && d !in left)
    && required == allRequired - left
    && optional == allOptional - left
  }

  lemma SplittingNext(
    names: set<string>, allRequired: set<string>, allOptional: set<string>, left: set<string>,
    queue: seq<string>, required: set<string>, optional: set<string>, d: string)
    requires Splitting(names, allRequired, allOptional, left, queue, required, optional) && d in left
    requires names !! allRequired && names !! allOptional && allRequired !! allOptional
    ensures d in names ==> Splitting(names, allRequired, allOptional, left - {d}, queue + [d], required, optional)
    ensures d in allRequired ==> Splitting(names, allRequired, allOptional, left - {d}, queue, required + {d}, optional)
    ensures d in allOptional ==> Splitting(names, allRequired, allOptional, left - {d}, queue, required, optional + {d})
  {
  }

  ghost function AllWorkspaceNames(m: Manifest): set<string> {
    set name | name in DeclaredNames(m) && DeclaresWorkspace(m, name)
  }

  lemma ThreeKinds(m: Manifest)
    ensures AllWorkspaceNames(m) !! RequiredNames(m) && AllWorkspaceNames(m) !! OptionalNames(m)
    ensures RequiredNames(m) !! OptionalNames(m)
    ensures AllWorkspaceNames(m) <= DeclaredNames(m) && RequiredNames(m) <= DeclaredNames(m) && OptionalNames(m) <= DeclaredNames(m)
    ensures WorkspaceNames(m) == AllWorkspaceNames(m) - {""}
  {
  }

  /** The branch the loop takes puts each name where it belongs. */
  ghost predicate BranchesSort(
    m: Manifest, merged: Record, names: set<string>, allRequired: set<string>, allOptional: set<string>)
  {
    && names !! allRequired && names !! allOptional && allRequired !! allOptional
    && names + allRequired + allOptional <= merged.Keys
    && forall d :: d in merged ==>
         d in if IsWorkspaceSpecifier(merged[d]) then names
              else if d in m.dependencies || d in m.peerDependencies then allRequired else allOptional
  }

  lemma BranchesSortThem(inherited: set<string>, m: Manifest, merged: Record)
    requires Consistent(inherited, m) && IsRuntimeMap(m, merged)
    ensures BranchesSort(m, merged, AllWorkspaceNames(m), RequiredNames(m), OptionalNames(m))
  {
    ThreeKinds(m);
    forall d | d in merged
      ensures d in if IsWorkspaceSpecifier(merged[d]) then AllWorkspaceNames(m)
                   else if d in m.dependencies || d in m.peerDependencies then RequiredNames(m) else OptionalNames(m)
    {
      SpecifierIsMerged(inherited, m, merged, d);
    }
  }

  method SplitDependencies(
    m: Manifest, merged: Record, ghost names: set<string>, ghost allRequired: set<string>, ghost allOptional: set<string>)
    returns (queue: seq<string>, required: set<string>, optional: set<string>)
    requires BranchesSort(m, merged, names, allRequired, allOptional)
    ensures forall d :: d in queue <==> d in names
    ensures required == allRequired && optional == allOptional
  {
    queue, required, optional := [], {}, {};
    var left := merged.Keys;
    while left != {}
      invariant left <= merged.Keys
      invariant Splitting(names, allRequired, allOptional, left, queue, required, optional)
      decreases |left|
    {
      var dependency :| dependency in left;
      SplittingNext(names, allRequired, allOptional, left, queue, required, optional, dependency);
      if IsWorkspaceSpecifier(merged[dependency]) {
        queue := queue + [dependency];
      } else if dependency in m.dependencies || dependency in m.peerDependencies {
        required := required + {dependency};
      } else {
        optional := optional + {dependency};
      }
      left := left - {dependency};
    }
  }

  method SortDependencies(ghost inherited: set<string>, m: Manifest, merged: Record)
    returns (queue: seq<string>, required: set<string>, optional: set<string>)
    requires Consistent(inherited, m) && IsRuntimeMap(m, merged)
    ensures Named(queue) == WorkspaceNames(m)
    ensures required == RequiredNames(m) && optional == OptionalNames(m)
  {
    BranchesSortThem(inherited, m, merged);
    ThreeKinds(m);
    queue, required, optional := SplitDependencies(m, merged, AllWorkspaceNames(m), RequiredNames(m), OptionalNames(m));
  }

  ghost function Named(queue: seq<string>): set<string> {
    set name | name in queue && name != ""
  }

  // ---------------------------------------------------------------- the worklist

  /** Where a workspace leads. */
  ghost function Next(source: map<string, Manifest>): string -> set<string> {
    name => if name in source then WorkspaceNames(source[name]) else {}
  }

  /** A workspace the release needs: one a path from the roots leads to. */
  ghost predicate Needed(source: map<string, Manifest>, roots: seq<string>, name: string) {
    Reachable(Named(roots), Next(source), name)
  }

  datatype Inventory = Inventory(workspaces: set<string>, required: set<string>, optional: set<string>)

  ghost predicate Gathers(source: map<string, Manifest>, visited: set<string>, pick: Manifest -> set<string>, gathered: set<string>) {
    forall d :: d in gathered <==> exists w :: w in visited && w in source && d in pick(source[w])
  }

  lemma GathersNext(source: map<string, Manifest>, visited: set<string>, pick: Manifest -> set<string>, gathered: set<string>, w: string)
    requires Gathers(source, visited, pick, gathered) && w in source
    ensures Gathers(source, visited + {w}, pick, gathered + pick(source[w]))
  {
    forall d
      ensures d in gathered + pick(source[w]) <==> exists v :: v in visited + {w} && v in source && d in pick(source[v])
    {
      if d in gathered {
        var v :| v in visited && v in source && d in pick(source[v]);
        assert v in visited + {w};
      }
      if d in pick(source[w]) {
        assert w in visited + {w};
      }
    }
  }

  ghost predicate AllPass(inherited: set<string>, lock: map<string, Manifest>, source: map<string, Manifest>, visited: set<string>) {
    forall w :: w in visited ==> Passes(inherited, lock, source, w)
  }

  /** The worklist so far, over any successor function and any choice of external names. */
  ghost predicate VisitingWith(
    inherited: set<string>, lock: map<string, Manifest>, source: map<string, Manifest>, roots: seq<string>,
    next: string -> set<string>, must: Manifest -> set<string>, may: Manifest -> set<string>,
    v: Inventory, queue: seq<string>)
  {
    && v.workspaces <= source.Keys
    && AllPass(inherited, lock, source, v.workspaces)
    && Exploring(Named(roots), next, v.workspaces, Named(queue))
    && Gathers(source, v.workspaces, must, v.required)
    && Gathers(source, v.workspaces, may, v.optional)
  }

  ghost predicate Visiting(
    inherited: set<string>, lock: map<string, Manifest>, source: map<string, Manifest>, roots: seq<string>,
    v: Inventory, queue: seq<string>)
  {
    VisitingWith(inherited, lock, source, roots, Next(source), RequiredNames, OptionalNames, v, queue)
  }

  lemma QueueHead(queue: seq<string>)
    requires queue != []
    ensures Named(queue) - {queue[0]} <= Named(queue[1..]) <= Named(queue)
    ensures Named(queue) <= Named(queue[1..]) + {queue[0]}
    ensures queue[0] == "" ==> Named(queue[1..]) == Named(queue)
  {
    assert queue == [queue[0]] + queue[1..];
  }

  lemma NamedConcat(a: seq<string>, b: seq<string>)
    ensures Named(a + b) == Named(a) + Named(b)
  {
  }

  lemma VisitSkip(
    inherited: set<string>, lock: map<string, Manifest>, source: map<string, Manifest>, roots: seq<string>,
    v: Inventory, queue: seq<string>)
    requires Visiting(inherited, lock, source, roots, v, queue)
    requires queue != [] && (queue[0] == "" || queue[0] in v.workspaces)
    ensures Visiting(inherited, lock, source, roots, v, queue[1..])
  {
    QueueHead(queue);
    ExploreSkip(Named(roots), Next(source), v.workspaces, Named(queue), Named(queue[1..]));
  }

  lemma ExploreNext(next: string -> set<string>, roots: set<string>, visited: set<string>, queue: seq<string>, more: seq<string>)
    requires Exploring(roots, next, visited, Named(queue)) && queue != [] && queue[0] != ""
    requires Named(more) == next(queue[0])
    ensures Exploring(roots, next, visited + {queue[0]}, Named(queue[1..] + more))
  {
    QueueHead(queue);
    NamedConcat(queue[1..], more);
    ExploreStep(roots, next, visited, Named(queue), queue[0], Named(queue[1..]));
  }

  lemma VisitNext(
    inherited: set<string>, lock: map<string, Manifest>, source: map<string, Manifest>, roots: seq<string>,
    next: string -> set<string>, must: Manifest -> set<string>, may: Manifest -> set<string>,
    v: Inventory, queue: seq<string>, more: seq<string>)
    requires VisitingWith(inherited, lock, source, roots, next, must, may, v, queue)
    requires queue != [] && queue[0] != "" && Passes(inherited, lock, source, queue[0])
    requires Named(more) == next(queue[0])
    ensures VisitingWith(inherited, lock, source, roots, next, must, may,
                         Inventory(v.workspaces + {queue[0]},
                                   v.required + must(source[queue[0]]),
                                   v.optional + may(source[queue[0]])),
                         queue[1..] + more)
  {
    var name := queue[0];
    ExploreNext(next, Named(roots), v.workspaces, queue, more);
    GathersNext(source, v.workspaces, must, v.required, name);
    GathersNext(source, v.workspaces, may, v.optional, name);
    assert AllPass(inherited, lock, source, v.workspaces + {name});
  }

  lemma VisitFails(
    inherited: set<string>, lock: map<string, Manifest>, source: map<string, Manifest>, roots: seq<string>,
    v: Inventory, queue: seq<string>)
    requires Visiting(inherited, lock, source, roots, v, queue)
    requires queue != [] && queue[0] != ""
    ensures Needed(source, roots, queue[0])
  {
    assert queue[0] in Named(queue);
  }

  /** What the finished inventory says: exactly the needed workspaces, and exactly the external names they declare. */
  ghost predicate IsInventory(source: map<string, Manifest>, roots: seq<string>, v: Inventory) {
    && (forall name :: name in v.workspaces <==> Needed(source, roots, name))
    && (forall d :: d in v.required <==>
          exists w :: Needed(source, roots, w) && w in source && d in RequiredNames(source[w]))
    && (forall d :: d in v.optional <==>
          exists w :: Needed(source, roots, w) && w in source && d in OptionalNames(source[w]))
  }

  lemma VisitEnd(
    inherited: set<string>, lock: map<string, Manifest>, source: map<string, Manifest>, roots: seq<string>,
    v: Inventory)
    requires Visiting(inherited, lock, source, roots, v, [])
    ensures forall name :: Needed(source, roots, name) ==> Passes(inherited, lock, source, name)
    ensures IsInventory(source, roots, v)
  {
    assert Named([]) == {};
    ExploreEnd(Named(roots), Next(source), v.workspaces);
    assert forall name :: name in v.workspaces <==> Needed(source, roots, name);
    GatheredByNeeded(source, roots, v.workspaces, RequiredNames, v.required);
    GatheredByNeeded(source, roots, v.workspaces, OptionalNames, v.optional);
  }

  lemma GatheredByNeeded(
    source: map<string, Manifest>, roots: seq<string>, visited: set<string>, pick: Manifest -> set<string>, gathered: set<string>)
    requires Gathers(source, visited, pick, gathered)
    requires forall name :: name in visited <==> Needed(source, roots, name)
    ensures forall d :: d in gathered <==> exists w :: Needed(source, roots, w) && w in source && d in pick(source[w])
  {
    forall d
      ensures d in gathered <==> exists w :: Needed(source, roots, w) && w in source && d in pick(source[w])
    {
      if d in gathered {
        var w :| w in visited && w in source && d in pick(source[w]);
        assert Needed(source, roots, w);
      }
      if w :| Needed(source, roots, w) && w in source && d in pick(source[w]) {
        assert w in visited;
      }
    }
  }

  /** The worklist succeeds exactly when every needed workspace passes its checks. */
  method VisitWorkspaces(
    inherited: set<string>, lock: map<string, Manifest>, source: map<string, Manifest>, roots: seq<string>)
    returns (r: Option<Inventory>)
    ensures r.Some? <==> forall name :: Needed(source, roots, name) ==> Passes(inherited, lock, source, name)
    ensures r.Some? ==> IsInventory(source, roots, r.value)
  {
    var queue, v := roots, Inventory({}, {}, {});
    ExploreStart(Named(roots), Next(source));
    while queue != []
      invariant Visiting(inherited, lock, source, roots, v, queue)
      decreases |source.Keys - v.workspaces|, |queue|
    {
      var name := queue[0];
      if name == "" || name in v.workspaces {
        VisitSkip(inherited, lock, source, roots, v, queue);
        queue := queue[1..];
      } else {
        var merged := CheckWorkspace(inherited, lock, source, name);
        if merged == None {
          VisitFails(inherited, lock, source, roots, v, queue);
          return None;
        }
        var more, required, optional := SortDependencies(inherited, source[name], merged.value);
        assert Named(more) == WorkspaceNames(source[name]);
        VisitNext(inherited, lock, source, roots, Next(source), RequiredNames, OptionalNames, v, queue, more);
        Shrinks(source.Keys, v.workspaces, name);
        v := Inventory(v.workspaces + {name}, v.required + required, v.optional + optional);
        queue := queue[1..] + more;
      }
    }
    VisitEnd(inherited, lock, source, roots, v);
    r := Some(v);
  }

  lemma Shrinks<T>(all: set<T>, done: set<T>, x: T)
    requires x in all && x !in done
    ensures |all - (done + {x})| < |all - done|
  {
    assert all - (done + {x}) == (all - done) - {x};
  }
}
