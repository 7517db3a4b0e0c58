/** Writing an accepted curation into an empty directory and enumerating it again (`enumerateRegularTree` and
    `validateBunRuntimeCuration` in `scripts/release-licenses.ts`). */
module CurationTree {
  import opened Wrappers
  import opened Sorting
  import opened PortablePath
  import opened ReleaseTree
  import opened Texts
  import opened Curation

  /** Creates a file at a path, with the directories above it; none when something is in the way. */
  function Put(node: Node, path: seq<string>): Option<Node>
    requires path != []
    decreases |path|
  {
    if !node.Directory? then None
    else if |path| == 1 then
      if path[0] in node.entries then None else Some(Directory(node.entries[path[0] := File(1, false)]))
    else
      var child := if path[0] in node.entries then node.entries[path[0]] else Directory(map[]);
      var below := Put(child, path[1..]);
      if below.None? then None else Some(Directory(node.entries[path[0] := below.value]))
  }

  ghost predicate IsFileAt(node: Node, path: seq<string>) {
    NodeAt(node, path).Some? && NodeAt(node, path).value.File?
  }

  /** Nothing sits at the path, and only directories above it. */
  ghost predicate IsFree(node: Node, path: seq<string>) {
    && NodeAt(node, path).None?
    && forall k :: 0 <= k < |path| && NodeAt(node, path[..k]).Some? ==> NodeAt(node, path[..k]).value.Directory?
  }

  function Child(node: Node, name: string): Node
    requires node.Directory?
  {
    if name in node.entries then node.entries[name] else Directory(map[])
  }

  lemma FreeBelow(node: Node, path: seq<string>)
    requires IsFree(node, path) && |path| > 1
    ensures node.Directory? && IsFree(Child(node, path[0]), path[1..])
  {
    assert path[..0] == [];
    assert NodeAt(node, []).Some?;
    forall k | 0 <= k < |path[1..]| && NodeAt(Child(node, path[0]), path[1..][..k]).Some?
      ensures NodeAt(Child(node, path[0]), path[1..][..k]).value.Directory?
    {
      assert path[..k + 1][0] == path[0] && path[..k + 1][1..] == path[1..][..k];
      if path[0] in node.entries {
        assert NodeAt(node, path[..k + 1]) == NodeAt(node.entries[path[0]], path[1..][..k]);
      }
    }
  }

  lemma OneStep(node: Node, path: seq<string>)
    requires node.Directory? && |path| == 1
    ensures NodeAt(node, path).Some? <==> path[0] in node.entries
  {
    assert path[1..] == [];
  }

  /** A free path can be written. */
  lemma {:induction false} FreeIsWritable(node: Node, path: seq<string>)
    requires path != [] && IsFree(node, path)
    ensures Put(node, path).Some?
    decreases |path|
  {
    if |path| == 1 {
      assert path[..0] == [] && NodeAt(node, []).Some?;
      OneStep(node, path);
    } else {
      FreeBelow(node, path);
      FreeIsWritable(Child(node, path[0]), path[1..]);
    }
  }

  /** Nodes of an empty directory. */
  lemma EmptyHolds(q: seq<string>)
    ensures NodeAt(Directory(map[]), q).Some? <==> q == []
  {
  }

  /** Writing adds that file, and directories above it, and changes nothing else. */
  lemma {:induction false} PutChanges(node: Node, path: seq<string>, q: seq<string>)
    requires path != [] && Put(node, path).Some?
    ensures IsFileAt(Put(node, path).value, q) <==> IsFileAt(node, q) || q == path
    ensures NodeAt(Put(node, path).value, q).Some? <==> NodeAt(node, q).Some? || q <= path
    ensures NodeAt(Put(node, path).value, q).Some? && NodeAt(node, q).None? && q != path ==>
              NodeAt(Put(node, path).value, q).value.Directory?
    ensures Put(node, path).value.Directory?
    decreases |path|
  {
    if q == [] {
    } else if q[0] == path[0] {
      if |path| == 1 {
        assert path[1..] == [] && path == [path[0]];
        assert q == [q[0]] + q[1..];
        assert NodeAt(File(1, false), q[1..]).Some? <==> q[1..] == [];
        assert IsFileAt(Put(node, path).value, q) <==> IsFileAt(File(1, false), q[1..]);
      } else {
        PutChanges(Child(node, path[0]), path[1..], q[1..]);
        EmptyHolds(q[1..]);
        assert q == [q[0]] + q[1..] && path == [path[0]] + path[1..];
      }
    } else {
      assert !(q <= path);
    }
  }

  // ---------------------------------------------------------------- writing a whole list

  function PutAll(paths: seq<seq<string>>): Option<Node>
    requires forall i :: 0 <= i < |paths| ==> paths[i] != []
  {
    if paths == [] then Some(Directory(map[]))
    else
      var before := PutAll(paths[..|paths| - 1]);
      if before.None? then None else Put(before.value, paths[|paths| - 1])
  }

  /** The tree holds exactly these files, and every other node is a directory above one of them. */
  ghost predicate Holds(node: Node, paths: seq<seq<string>>) {
    && node.Directory?
    && (forall q :: IsFileAt(node, q) <==> q in paths)
    && (forall q :: NodeAt(node, q).Some? && !IsFileAt(node, q) ==> NodeAt(node, q).value.Directory?)
    && forall q :: q != [] && NodeAt(node, q).Some? ==> Above(q, paths)
  }

  /** A path is one of the list, or leads to one of them. */
  ghost predicate Above(q: seq<string>, paths: seq<seq<string>>) {
    exists p :: p in paths && q <= p
  }

  ghost predicate PrefixFree(paths: seq<seq<string>>) {
    forall i, j :: 0 <= i < |paths| && 0 <= j < |paths| && i != j ==> !(paths[i] <= paths[j])
  }

  lemma NewPathIsFree(node: Node, paths: seq<seq<string>>, path: seq<string>)
    requires Holds(node, paths) && path != []
    requires forall p :: p in paths ==> !(p <= path) && !(path <= p)
    ensures IsFree(node, path)
  {
    assert NodeAt(node, path).Some? ==> Above(path, paths);
    forall k | 0 <= k < |path| && NodeAt(node, path[..k]).Some?
      ensures NodeAt(node, path[..k]).value.Directory?
    {
      var above := path[..k];
      assert above <= path;
      assert above !in paths;
    }
  }

  lemma PutHolds(node: Node, paths: seq<seq<string>>, path: seq<string>)
    requires Holds(node, paths) && path != [] && Put(node, path).Some?
    ensures Holds(Put(node, path).value, paths + [path])
  {
    var after, all := Put(node, path).value, paths + [path];
    assert path in all;
    PutChanges(node, path, []);
    forall q
      ensures IsFileAt(after, q) <==> q in all
      ensures NodeAt(after, q).Some? && !IsFileAt(after, q) ==> NodeAt(after, q).value.Directory?
      ensures q != [] && NodeAt(after, q).Some? ==> Above(q, all)
    {
      PutChanges(node, path, q);
      if NodeAt(node, q).Some? && NodeAt(node, q).value.Directory? {
        PutKeepsKind(node, path, q);
      }
      if q != [] && NodeAt(node, q).Some? {
        assert Above(q, paths);
        var p :| p in paths && q <= p;
        assert p in all;
      }
    }
  }

  lemma {:induction false} PutKeepsKind(node: Node, path: seq<string>, q: seq<string>)
    requires path != [] && Put(node, path).Some? && NodeAt(node, q).Some? && NodeAt(node, q).value.Directory?
    ensures NodeAt(Put(node, path).value, q).Some? && NodeAt(Put(node, path).value, q).value.Directory?
    decreases |path|
  {
    if q != [] && q[0] == path[0] && |path| > 1 {
      PutKeepsKind(Child(node, path[0]), path[1..], q[1..]);
    }
  }

  lemma EmptyTree()
    ensures Holds(Directory(map[]), [])
  {
    forall q
      ensures NodeAt(Directory(map[]), q).Some? <==> q == []
    {
      EmptyHolds(q);
    }
  }

  lemma LastIsApart(paths: seq<seq<string>>)
    requires PrefixFree(paths) && paths != []
    ensures var before, last := paths[..|paths| - 1], paths[|paths| - 1];
            && PrefixFree(before) && paths == before + [last]
            && forall p :: p in before ==> !(p <= last) && !(last <= p)
  {
    var before, last := paths[..|paths| - 1], paths[|paths| - 1];
    assert forall i :: 0 <= i < |before| ==> before[i] == paths[i];
    forall p | p in before
      ensures !(p <= last) && !(last <= p)
    {
      var i :| 0 <= i < |before| && before[i] == p;
      assert !(paths[i] <= paths[|paths| - 1]) && !(paths[|paths| - 1] <= paths[i]);
    }
  }

  lemma LastIsWritable(node: Node, before: seq<seq<string>>, last: seq<string>)
    requires Holds(node, before) && last != [] && forall p :: p in before ==> !(p <= last) && !(last <= p)
    ensures Put(node, last).Some? && Holds(Put(node, last).value, before + [last])
  {
    NewPathIsFree(node, before, last);
    FreeIsWritable(node, last);
    PutHolds(node, before, last);
  }

  /** A list in which no path is another or leads to another can be written, whatever its order. */
  lemma {:induction false} PrefixFreeIsWritable(paths: seq<seq<string>>)
    requires PrefixFree(paths) && forall i :: 0 <= i < |paths| ==> paths[i] != []
    ensures PutAll(paths).Some? && Holds(PutAll(paths).value, paths)
    decreases |paths|
  {
    if paths == [] {
      EmptyTree();
    } else {
      var before, last := paths[..|paths| - 1], paths[|paths| - 1];
      LastIsApart(paths);
      PrefixFreeIsWritable(before);
      LastIsWritable(PutAll(before).value, before, last);
    }
  }

  // ---------------------------------------------------------------- conflicts of texts and of segments

  lemma {:induction false} JoinConcat(a: seq<string>, b: seq<string>)
    requires a != [] && b != []
    ensures Join(a + b) == Join(a) + "/" + Join(b)
  {
    if |a| == 1 {
      assert (a + b)[1..] == b;
    } else {
      assert (a + b)[1..] == a[1..] + b;
      JoinConcat(a[1..], b);
    }
  }

  /** Segments that lead to others join to texts in conflict. */
  lemma PrefixConflicts(a: seq<string>, b: seq<string>)
    requires a != [] && a <= b
    ensures Conflict(Join(a), Join(b))
  {
    var rest := b[|a|..];
    assert b == a + rest;
    if rest == [] {
      assert a == b;
    } else {
      JoinConcat(a, rest);
      assert Join(a) + "/" <= Join(b);
    }
  }

  function Splits(paths: seq<string>): (r: seq<seq<string>>)
    ensures |r| == |paths| && forall i :: 0 <= i < |r| ==> r[i] == Split(paths[i])
    ensures forall i :: 0 <= i < |r| ==> r[i] != []
  {
    if paths == [] then [] else [Split(paths[0])] + Splits(paths[1..])
  }

  lemma ConflictFreeIsPrefixFree(paths: seq<string>)
    requires ConflictFree(paths)
    ensures PrefixFree(Splits(paths))
  {
    var all := Splits(paths);
    forall i, j | 0 <= i < |all| && 0 <= j < |all| && i != j
      ensures !(all[i] <= all[j])
    {
      assert all[i] == Split(paths[i]) && all[j] == Split(paths[j]);
      JoinSplit(paths[i]);
      JoinSplit(paths[j]);
      assert !Conflict(paths[i], paths[j]) by {
        ConflictSymmetric(paths[i], paths[j]);
      }
      if all[i] <= all[j] {
        PrefixConflicts(all[i], all[j]);
      }
    }
  }

  lemma {:induction false} SplitConcat(a: string, b: string)
    ensures Split(a + "/" + b) == Split(a) + Split(b)
  {
    var path := a + "/" + b;
    if a == "" {
      assert path[1..] == b;
    } else {
      assert path[0] == a[0] && path[1..] == a[1..] + "/" + b;
      SplitConcat(a[1..], b);
    }
  }

  lemma AboveSplits(a: string, b: string)
    requires a + "/" <= b
    ensures Split(a) <= Split(b)
  {
    var rest := b[|a| + 1..];
    assert b == a + "/" + rest;
    SplitConcat(a, rest);
  }

  /** Texts are in conflict exactly when the segments of one lead to the other. */
  lemma ConflictExactly(a: string, b: string)
    ensures Conflict(a, b) <==> Split(a) <= Split(b) || Split(b) <= Split(a)
  {
    JoinSplit(a);
    JoinSplit(b);
    if a + "/" <= b {
      AboveSplits(a, b);
    } else if b + "/" <= a {
      AboveSplits(b, a);
    }
    if Split(a) <= Split(b) {
      PrefixConflicts(Split(a), Split(b));
    } else if Split(b) <= Split(a) {
      PrefixConflicts(Split(b), Split(a));
      ConflictSymmetric(a, b);
    }
  }

  lemma {:induction false} PutNeedsFree(node: Node, path: seq<string>, k: nat)
    requires path != [] && Put(node, path).Some? && k < |path|
    ensures NodeAt(node, path).None?
    ensures NodeAt(node, path[..k]).Some? ==> NodeAt(node, path[..k]).value.Directory?
    decreases |path|
  {
    if |path| == 1 {
      OneStep(node, path);
      assert path[..0] == [];
    } else {
      var child := Child(node, path[0]);
      PutNeedsFree(child, path[1..], if k == 0 then 0 else k - 1);
      if k > 0 {
        assert path[..k][0] == path[0] && path[..k][1..] == path[1..][..k - 1];
      }
    }
  }

  /** What is already there neither leads to a new path nor lies under it. */
  lemma WrittenIsApart(node: Node, before: seq<seq<string>>, last: seq<string>, p: seq<string>)
    requires Holds(node, before) && last != [] && Put(node, last).Some? && p in before
    ensures !(p <= last) && !(last <= p)
  {
    assert IsFileAt(node, p);
    PutNeedsFree(node, last, 0);
    if p <= last {
      assert p == last[..|p|];
      if |p| < |last| {
        PutNeedsFree(node, last, |p|);
      }
    }
    if last <= p {
      LeadsToNode(node, last, p);
    }
  }

  lemma {:induction false} LeadsToNode(node: Node, above: seq<string>, p: seq<string>)
    requires above <= p && NodeAt(node, p).Some?
    ensures NodeAt(node, above).Some?
    decreases |above|
  {
    if above != [] {
      LeadsToNode(node.entries[p[0]], above[1..], p[1..]);
    }
  }

  lemma PrefixFreeSnoc(before: seq<seq<string>>, last: seq<string>)
    requires PrefixFree(before) && forall p :: p in before ==> !(p <= last) && !(last <= p)
    ensures PrefixFree(before + [last])
  {
    var all := before + [last];
    forall i, j | 0 <= i < |all| && 0 <= j < |all| && i != j
      ensures !(all[i] <= all[j])
    {
      assert i < |before| ==> all[i] == before[i] && before[i] in before;
      assert j < |before| ==> all[j] == before[j] && before[j] in before;
    }
  }

  /** Only such lists can be written. */
  lemma {:induction false} WritableIsPrefixFree(paths: seq<seq<string>>)
    requires (forall i :: 0 <= i < |paths| ==> paths[i] != []) && PutAll(paths).Some?
    ensures PrefixFree(paths)
    decreases |paths|
  {
    if paths != [] {
      var before, last := paths[..|paths| - 1], paths[|paths| - 1];
      WritableIsPrefixFree(before);
      PrefixFreeIsWritable(before);
      forall p | p in before
        ensures !(p <= last) && !(last <= p)
      {
        WrittenIsApart(PutAll(before).value, before, last, p);
      }
      PrefixFreeSnoc(before, last);
      assert paths == before + [last];
    }
  }

  lemma PrefixFreeIsConflictFree(paths: seq<string>)
    requires PrefixFree(Splits(paths))
    ensures ConflictFree(paths)
  {
    var all := Splits(paths);
    forall i, j | 0 <= i < j < |paths|
      ensures !Conflict(paths[i], paths[j])
    {
      assert !(all[i] <= all[j]) && !(all[j] <= all[i]);
      ConflictExactly(paths[i], paths[j]);
    }
  }

  /** The conflict check is neither too weak nor too strict: a list passes it exactly when its files can be written
      into an empty directory one after the other. */
  lemma ConflictFreeExactlyWhenWritable(paths: seq<string>)
    ensures ConflictFree(paths) <==> PutAll(Splits(paths)).Some?
  {
    if ConflictFree(paths) {
      ConflictFreeIsPrefixFree(paths);
      PrefixFreeIsWritable(Splits(paths));
    }
    if PutAll(Splits(paths)).Some? {
      WritableIsPrefixFree(Splits(paths));
      PrefixFreeIsConflictFree(paths);
    }
  }

  // ---------------------------------------------------------------- enumerating

  function AnyFile(): Rules {
    Rules(segment => true, {})
  }

  function PathsOf(found: seq<Found>): (r: seq<string>)
    ensures |r| == |found| && forall i :: 0 <= i < |r| ==> r[i] == Join(found[i].segments)
  {
    if found == [] then [] else [Join(found[0].segments)] + PathsOf(found[1..])
  }

  /** `enumerateRegularTree`: every file, sorted; none when the tree holds a link or a special file. */
  method EnumerateRegularTree(readdir: set<string> -> seq<string>, root: Node) returns (r: Option<seq<string>>)
    requires Lists(readdir) && root.Directory?
    ensures r == Enumerated(readdir, root)
  {
    SortedListingsList(readdir);
    var collector := new Collector();
    var ok := collector.CollectEntries(SortedListings(readdir), AnyFile(), root, []);
    if !ok {
      return None;
    }
    assert [] + WalkNode(SortedListings(readdir), AnyFile(), root, []).value
        == WalkNode(SortedListings(readdir), AnyFile(), root, []).value;
    r := Some(Sort(PathsOf(collector.output)));
  }

  ghost function Enumerated(readdir: set<string> -> seq<string>, root: Node): Option<seq<string>> {
    var found := WalkNode(SortedListings(readdir), AnyFile(), root, []);
    if found.None? then None else Some(Sort(PathsOf(found.value)))
  }

  /** A tree without links or special files can be enumerated. */
  lemma HeldTreeWalks(readdir: set<string> -> seq<string>, root: Node, paths: seq<seq<string>>)
    requires Lists(readdir) && Holds(root, paths)
    ensures WalkNode(SortedListings(readdir), AnyFile(), root, []).Some?
  {
    SortedListingsList(readdir);
    WalkNodeFails(SortedListings(readdir), AnyFile(), root, []);
    forall q
      ensures !IsObstacle(AnyFile(), root, [], q)
    {
      assert NodeAt(root, q).Some? ==> NodeAt(root, q).value.File? || NodeAt(root, q).value.Directory?;
    }
  }

  lemma FoundIsFile(readdir: set<string> -> seq<string>, root: Node, segments: seq<string>)
    requires Lists(readdir) && WalkNode(SortedListings(readdir), AnyFile(), root, []).Some?
    ensures Finds(WalkNode(SortedListings(readdir), AnyFile(), root, []).value, segments) <==> IsFileAt(root, segments)
  {
    SortedListingsList(readdir);
    var order, rules := SortedListings(readdir), AnyFile();
    var found := WalkNode(order, rules, root, []).value;
    if Finds(found, segments) {
      var i :| 0 <= i < |found| && found[i].segments == segments;
      WalkNodeSound(order, rules, root, [], found[i]);
      assert found[i].segments[0..] == segments;
    }
    if IsFileAt(root, segments) {
      WalkNodeComplete(order, rules, root, [], segments);
      assert [] + segments == segments;
    }
  }

  ghost predicate Finds(found: seq<Found>, segments: seq<string>) {
    exists i :: 0 <= i < |found| && found[i].segments == segments
  }

  /** The files of a tree that holds a list enumerate to that list, sorted. */
  lemma HeldTreeEnumerates(readdir: set<string> -> seq<string>, root: Node, paths: seq<string>)
    requires Lists(readdir) && Holds(root, Splits(paths)) && Distinct(paths)
    ensures Enumerated(readdir, root) == Some(Sort(paths))
  {
    HeldTreeWalks(readdir, root, Splits(paths));
    var found := WalkNode(SortedListings(readdir), AnyFile(), root, []).value;
    FoundPathsAreFiles(readdir, root, paths, found);
    FoundPathsDistinct(readdir, root, paths, found);
    SortOfSameSet(PathsOf(found), paths);
  }

  lemma FoundIsListed(readdir: set<string> -> seq<string>, root: Node, paths: seq<string>, found: seq<Found>, i: nat)
    requires Lists(readdir) && Holds(root, Splits(paths)) && i < |found|
    requires WalkNode(SortedListings(readdir), AnyFile(), root, []) == Some(found)
    ensures found[i].segments in Splits(paths) && Join(found[i].segments) in paths
  {
    FoundIsFile(readdir, root, found[i].segments);
    assert Finds(found, found[i].segments);
    var k :| 0 <= k < |paths| && Splits(paths)[k] == found[i].segments;
    JoinSplit(paths[k]);
  }

  lemma ListedIsFound(readdir: set<string> -> seq<string>, root: Node, paths: seq<string>, found: seq<Found>, k: nat)
    requires Lists(readdir) && Holds(root, Splits(paths)) && k < |paths|
    requires WalkNode(SortedListings(readdir), AnyFile(), root, []) == Some(found)
    ensures paths[k] in PathsOf(found)
  {
    assert Splits(paths)[k] in Splits(paths);
    FoundIsFile(readdir, root, Split(paths[k]));
    var i :| 0 <= i < |found| && found[i].segments == Split(paths[k]);
    JoinSplit(paths[k]);
    assert PathsOf(found)[i] == paths[k];
  }

  lemma FoundPathsAreFiles(readdir: set<string> -> seq<string>, root: Node, paths: seq<string>, found: seq<Found>)
    requires Lists(readdir) && Holds(root, Splits(paths))
    requires WalkNode(SortedListings(readdir), AnyFile(), root, []) == Some(found)
    ensures Members(PathsOf(found)) == Members(paths)
    ensures forall i :: 0 <= i < |found| ==> found[i].segments in Splits(paths)
  {
    var listed := PathsOf(found);
    forall i | 0 <= i < |found|
      ensures found[i].segments in Splits(paths) && listed[i] in paths
    {
      FoundIsListed(readdir, root, paths, found, i);
    }
    forall k | 0 <= k < |paths|
      ensures paths[k] in listed
    {
      ListedIsFound(readdir, root, paths, found, k);
    }
    SameMembers(listed, paths);
  }

  lemma SameMembers(xs: seq<string>, ys: seq<string>)
    requires forall i :: 0 <= i < |xs| ==> xs[i] in ys
    requires forall i :: 0 <= i < |ys| ==> ys[i] in xs
    ensures Members(xs) == Members(ys)
  {
  }

  lemma FoundPathsDistinct(readdir: set<string> -> seq<string>, root: Node, paths: seq<string>, found: seq<Found>)
    requires Lists(readdir) && WalkNode(SortedListings(readdir), AnyFile(), root, []) == Some(found)
    requires forall i :: 0 <= i < |found| ==> found[i].segments in Splits(paths)
    ensures Distinct(PathsOf(found))
  {
    SortedListingsList(readdir);
    WalkNodeDistinct(SortedListings(readdir), AnyFile(), root, []);
    forall i, j | 0 <= i < j < |found|
      ensures PathsOf(found)[i] != PathsOf(found)[j]
    {
      assert found[i].segments != found[j].segments;
      var a :| 0 <= a < |paths| && Splits(paths)[a] == found[i].segments;
      var b :| 0 <= b < |paths| && Splits(paths)[b] == found[j].segments;
      JoinSplit(paths[a]);
      JoinSplit(paths[b]);
    }
  }

  // ---------------------------------------------------------------- the curation

  /** Lower case acts on each side of a slash alone, and the manifest's name folds as expected. */
  ghost predicate FoldsPaths(u: Unicode) {
    && u.lower(MANIFEST) == FOLDED_MANIFEST
    && forall x, y :: u.lower(x + "/" + y) == u.lower(x) + "/" + u.lower(y)
  }

  lemma FoldKeepsAbove(u: Unicode, a: string, b: string)
    requires FoldsPaths(u) && a + "/" <= b
    ensures u.lower(a) + "/" <= u.lower(b)
  {
    var rest := b[|a| + 1..];
    assert b == a + "/" + rest;
  }

  lemma FoldKeepsConflict(u: Unicode, a: string, b: string)
    requires FoldsPaths(u) && Conflict(a, b)
    ensures Conflict(u.lower(a), u.lower(b))
  {
    if a + "/" <= b {
      FoldKeepsAbove(u, a, b);
    } else if b + "/" <= a {
      FoldKeepsAbove(u, b, a);
    }
  }

  /** Paths free of conflicts after folding are free of conflicts as written. */
  lemma WrittenIsConflictFree(u: Unicode, paths: seq<string>)
    requires FoldsPaths(u) && IsAccepted(u, paths)
    ensures ConflictFree([MANIFEST] + paths)
  {
    var all, folded := [MANIFEST] + paths, [FOLDED_MANIFEST] + Folded(u, paths);
    forall i, j | 0 <= i < j < |all|
      ensures !Conflict(all[i], all[j])
    {
      assert folded[i] == u.lower(all[i]) && folded[j] == u.lower(all[j]);
      assert !Conflict(folded[i], folded[j]);
      if Conflict(all[i], all[j]) {
        FoldKeepsConflict(u, all[i], all[j]);
      }
    }
  }

  lemma ConflictFreeIsDistinct(paths: seq<string>)
    requires ConflictFree(paths)
    ensures Distinct(paths)
  {
    forall i, j | 0 <= i < j < |paths|
      ensures paths[i] != paths[j]
    {
      assert !Conflict(paths[i], paths[j]);
    }
  }

  /** Writing these files into an empty directory works, and enumerating it gives back the sorted list. */
  ghost predicate IsRealTree(readdir: set<string> -> seq<string>, paths: seq<string>) {
    var tree := PutAll(Splits(paths));
    tree.Some? && tree.value.Directory? && Enumerated(readdir, tree.value) == Some(Sort(paths))
  }

  lemma ConflictFreeIsReal(readdir: set<string> -> seq<string>, paths: seq<string>)
    requires Lists(readdir) && ConflictFree(paths)
    ensures IsRealTree(readdir, paths)
  {
    ConflictFreeIsPrefixFree(paths);
    PrefixFreeIsWritable(Splits(paths));
    ConflictFreeIsDistinct(paths);
    HeldTreeEnumerates(readdir, PutAll(Splits(paths)).value, paths);
  }

  /** An accepted list and its manifest are a real tree, as written and on a file system that folds case. */
  lemma AcceptedIsRealTree(u: Unicode, readdir: set<string> -> seq<string>, paths: seq<string>)
    requires Lists(readdir) && FoldsPaths(u) && IsAccepted(u, paths)
    ensures IsRealTree(readdir, [MANIFEST] + paths)
    ensures IsRealTree(readdir, [FOLDED_MANIFEST] + Folded(u, paths))
  {
    WrittenIsConflictFree(u, paths);
    ConflictFreeIsReal(readdir, [MANIFEST] + paths);
    ConflictFreeIsReal(readdir, [FOLDED_MANIFEST] + Folded(u, paths));
  }

  /** The comparison of `validateBunRuntimeCuration`: the directory holds the declared files and no others. */
  method MatchesDeclared(readdir: set<string> -> seq<string>, root: Node, paths: seq<string>) returns (ok: bool)
    requires Lists(readdir) && root.Directory?
    ensures ok <==> Enumerated(readdir, root) == Some(Sort([MANIFEST] + paths))
  {
    var actual := EnumerateRegularTree(readdir, root);
    if actual == None {
      return false;
    }
    TextDecidesList(actual.value, Sort([MANIFEST] + paths));
    ok := ListText(actual.value) == ListText(Sort([MANIFEST] + paths));
  }

  /** A matching directory has a file at every declared path and a declared path for every file. */
  lemma MatchingIsExact(readdir: set<string> -> seq<string>, root: Node, paths: seq<string>, path: string)
    requires Lists(readdir) && root.Directory? && Enumerated(readdir, root) == Some(Sort(paths))
    ensures path in paths <==> exists segments :: IsFileAt(root, segments) && Join(segments) == path
  {
    var found := WalkNode(SortedListings(readdir), AnyFile(), root, []).value;
    SortMembers(paths, path);
    SortMembers(PathsOf(found), path);
    ListedHasFile(readdir, root, found, path);
  }

  lemma ListedHasFile(readdir: set<string> -> seq<string>, root: Node, found: seq<Found>, path: string)
    requires Lists(readdir) && WalkNode(SortedListings(readdir), AnyFile(), root, []) == Some(found)
    ensures path in PathsOf(found) <==> exists segments :: IsFileAt(root, segments) && Join(segments) == path
  {
    var listed := PathsOf(found);
    if path in listed {
      var i :| 0 <= i < |listed| && listed[i] == path;
      FoundIsFile(readdir, root, found[i].segments);
      assert Finds(found, found[i].segments);
    }
    if segments :| IsFileAt(root, segments) && Join(segments) == path {
      FoundIsFile(readdir, root, segments);
      var i :| 0 <= i < |found| && found[i].segments == segments;
      assert listed[i] == path;
    }
  }
}
