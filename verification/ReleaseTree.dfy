/** `collectEntries` of `scripts/release-archive.ts`: a depth-first walk that sorts every directory listing. */
module ReleaseTree {
  import opened Wrappers
  import opened PortablePath
  import opened Sorting

  /** A directory tree as the file system holds it: names are unique, listings have no order of their own. */
  datatype Node =
    | File(size: nat, executable: bool)
    | Directory(entries: map<string, Node>)
    | SymbolicLink
    | Special

  datatype Found = Found(segments: seq<string>, size: nat, executable: bool)

  /** The checks a walk runs under: the segment check and the paths declared executable. */
  datatype Rules = Rules(portable: string -> bool, executables: set<string>)

  predicate AllPass(rules: Rules, segments: seq<string>) {
    forall i :: 0 <= i < |segments| ==> rules.portable(segments[i])
  }

  function Collected(rules: Rules, at: seq<string>, size: nat, executable: bool): Found {
    Found(at, size, Join(at) in rules.executables || executable)
  }

  // ---------------------------------------------------------------- the walk

  /** Everything under `node`, which sits at the segments `at`, with directories taken in the given order;
      none when the walk must fail. */
  ghost function WalkNode(order: set<string> -> seq<string>, rules: Rules, node: Node, at: seq<string>): Option<seq<Found>>
    decreases node, 1, 0
  {
    match node
    case File(size, executable) =>
      if AllPass(rules, at) then Some([Collected(rules, at, size, executable)]) else None
    case Directory(entries) => WalkNames(order, rules, node, order(entries.Keys), at)
    case SymbolicLink => None
    case Special => None
  }

  ghost function WalkNames(order: set<string> -> seq<string>, rules: Rules, dir: Node, names: seq<string>, at: seq<string>)
      : Option<seq<Found>>
    requires dir.Directory?
    decreases dir, 0, |names|
  {
    if names == [] then Some([]) else
    if names[0] !in dir.entries then None else
    match WalkNode(order, rules, dir.entries[names[0]], at + [names[0]])
    case None => None
    case Some(first) =>
      match WalkNames(order, rules, dir, names[1..], at)
      case None => None
      case Some(rest) => Some(first + rest)
  }

  /** What a path leads to. */
  function NodeAt(node: Node, path: seq<string>): Option<Node>
    decreases |path|
  {
    if path == [] then Some(node)
    else if node.Directory? && path[0] in node.entries then NodeAt(node.entries[path[0]], path[1..])
    else None
  }

  /** The order lists exactly the directory's names, each once. */
  ghost predicate IsListing(names: seq<string>, of: set<string>) {
    Distinct(names) && forall name :: name in names <==> name in of
  }

  ghost predicate Lists(order: set<string> -> seq<string>) {
    forall names :: IsListing(order(names), names)
  }

  // ---------------------------------------------------------------- what it collects

  /** What the walk says of a file: its size, and that it is executable when it is on disk or declared to be. */
  ghost predicate Tells(rules: Rules, f: Found, size: nat, executable: bool) {
    && f.size == size
    && (f.executable <==> executable || Join(f.segments) in rules.executables)
  }

  ghost predicate IsFoundAt(rules: Rules, node: Node, at: seq<string>, f: Found) {
    && |f.segments| >= |at| && f.segments[..|at|] == at
    && match NodeAt(node, f.segments[|at|..])
       case Some(File(size, executable)) => Tells(rules, f, size, executable)
       case _ => false
  }

  /** Every entry is a file of the tree, under its own path, with portable segments. */
  lemma {:induction false} WalkNodeSound(order: set<string> -> seq<string>, rules: Rules, node: Node, at: seq<string>, f: Found)
    requires WalkNode(order, rules, node, at).Some?
    requires f in WalkNode(order, rules, node, at).value
    ensures IsFoundAt(rules, node, at, f) && forall i :: 0 <= i < |f.segments| ==> rules.portable(f.segments[i])
    decreases node, 1, 0
  {
    match node
    case File(_, _) =>
      assert f.segments == at && at[|at|..] == [];
    case Directory(entries) =>
      WalkNamesSound(order, rules, node, order(entries.Keys), at, f);
  }

  lemma {:induction false} WalkNamesSound(order: set<string> -> seq<string>, rules: Rules, dir: Node, names: seq<string>,
                                          at: seq<string>, f: Found)
    requires dir.Directory? && WalkNames(order, rules, dir, names, at).Some?
    requires f in WalkNames(order, rules, dir, names, at).value
    ensures IsFoundAt(rules, dir, at, f) && AllPass(rules, f.segments)
    ensures |f.segments| > |at| && f.segments[|at|] in names
    decreases dir, 0, |names|
  {
    var child, below := dir.entries[names[0]], at + [names[0]];
    if f in WalkNode(order, rules, child, below).value {
      WalkNodeSound(order, rules, child, below, f);
      assert f.segments[..|at|] == f.segments[..|below|][..|at|] == at;
      assert f.segments[|at|] == f.segments[..|below|][|at|] == names[0];
      assert f.segments[|at|..][0] == names[0];
      assert f.segments[|at|..][1..] == f.segments[|below|..];
    } else {
      WalkNamesSound(order, rules, dir, names[1..], at, f);
    }
  }

  ghost predicate Holds(found: Option<seq<Found>>, segments: seq<string>) {
    found.Some? && exists i :: 0 <= i < |found.value| && found.value[i].segments == segments
  }

  /** Every file of the tree is an entry. */
  lemma {:induction false} WalkNodeComplete(order: set<string> -> seq<string>, rules: Rules, node: Node, at: seq<string>,
                                            path: seq<string>)
    requires Lists(order) && WalkNode(order, rules, node, at).Some?
    requires NodeAt(node, path).Some? && NodeAt(node, path).value.File?
    ensures Holds(WalkNode(order, rules, node, at), at + path)
    decreases node, 1, 0
  {
    match node
    case File(size, executable) =>
      assert path == [];
      assert WalkNode(order, rules, node, at).value[0].segments == at + path;
    case Directory(entries) =>
      assert IsListing(order(entries.Keys), entries.Keys);
      WalkNamesComplete(order, rules, node, order(entries.Keys), at, path);
  }

  lemma {:induction false} WalkNamesComplete(order: set<string> -> seq<string>, rules: Rules, dir: Node, names: seq<string>,
                                             at: seq<string>, path: seq<string>)
    requires Lists(order) && dir.Directory? && WalkNames(order, rules, dir, names, at).Some?
    requires path != [] && path[0] in names
    requires NodeAt(dir, path).Some? && NodeAt(dir, path).value.File?
    ensures Holds(WalkNames(order, rules, dir, names, at), at + path)
    decreases dir, 0, |names|
  {
    var child, below := dir.entries[names[0]], at + [names[0]];
    var first, rest := WalkNode(order, rules, child, below), WalkNames(order, rules, dir, names[1..], at);
    var all := WalkNames(order, rules, dir, names, at);
    assert all == Some(first.value + rest.value);
    if path[0] == names[0] {
      WalkNodeComplete(order, rules, child, below, path[1..]);
      assert path == [names[0]] + path[1..];
      assert below + path[1..] == at + path;
      var i :| 0 <= i < |first.value| && first.value[i].segments == at + path;
      assert all.value[i].segments == at + path;
    } else {
      WalkNamesComplete(order, rules, dir, names[1..], at, path);
      var i :| 0 <= i < |rest.value| && rest.value[i].segments == at + path;
      assert all.value[|first.value| + i].segments == at + path;
    }
  }

  ghost predicate DistinctSegments(found: seq<Found>) {
    forall i, j :: 0 <= i < j < |found| ==> found[i].segments != found[j].segments
  }

  /** No file is listed twice. */
  lemma {:induction false} WalkNodeDistinct(order: set<string> -> seq<string>, rules: Rules, node: Node, at: seq<string>)
    requires Lists(order) && WalkNode(order, rules, node, at).Some?
    ensures DistinctSegments(WalkNode(order, rules, node, at).value)
    decreases node, 1, 0
  {
    match node
    case File(_, _) =>
    case Directory(entries) =>
      assert IsListing(order(entries.Keys), entries.Keys);
      WalkNamesDistinct(order, rules, node, order(entries.Keys), at);
  }

  lemma {:induction false} WalkNamesDistinct(order: set<string> -> seq<string>, rules: Rules, dir: Node, names: seq<string>,
                                             at: seq<string>)
    requires Lists(order) && dir.Directory? && Distinct(names)
    requires WalkNames(order, rules, dir, names, at).Some?
    ensures DistinctSegments(WalkNames(order, rules, dir, names, at).value)
    decreases dir, 0, |names|
  {
    if names == [] {
    } else {
      var child, below := dir.entries[names[0]], at + [names[0]];
      var first := WalkNode(order, rules, child, below).value;
      var rest := WalkNames(order, rules, dir, names[1..], at).value;
      WalkNodeDistinct(order, rules, child, below);
      WalkNamesDistinct(order, rules, dir, names[1..], at);
      forall i, j | 0 <= i < |first| && 0 <= j < |rest|
        ensures first[i].segments != rest[j].segments
      {
        WalkNodeSound(order, rules, child, below, first[i]);
        WalkNamesSound(order, rules, dir, names[1..], at, rest[j]);
        assert first[i].segments[|at|] == first[i].segments[..|below|][|at|] == names[0];
      }
      DistinctConcat(first, rest);
    }
  }

  lemma DistinctConcat(a: seq<Found>, b: seq<Found>)
    requires DistinctSegments(a) && DistinctSegments(b)
    requires forall i, j :: 0 <= i < |a| && 0 <= j < |b| ==> a[i].segments != b[j].segments
    ensures DistinctSegments(a + b)
  {
  }

  /** What makes the walk fail: a link, a special file, or a file whose path is not portable. */
  ghost predicate IsObstacle(rules: Rules, node: Node, at: seq<string>, path: seq<string>) {
    match NodeAt(node, path)
    case Some(SymbolicLink) => true
    case Some(Special) => true
    case Some(File(_, _)) => exists i :: 0 <= i < |at + path| && !rules.portable((at + path)[i])
    case _ => false
  }

  ghost predicate ObstacleUnder(rules: Rules, dir: Node, names: seq<string>, at: seq<string>, path: seq<string>) {
    path != [] && path[0] in names && IsObstacle(rules, dir, at, path)
  }

  lemma {:induction false} WalkNodeFails(order: set<string> -> seq<string>, rules: Rules, node: Node, at: seq<string>)
    requires Lists(order)
    ensures WalkNode(order, rules, node, at).None? <==> exists path :: IsObstacle(rules, node, at, path)
    decreases node, 1, 0
  {
    match node
    case File(_, _) =>
      assert at + [] == at;
      assert IsObstacle(rules, node, at, []) <==> !AllPass(rules, at);
    case Directory(entries) =>
      var names := order(entries.Keys);
      assert IsListing(names, entries.Keys);
      WalkNamesFails(order, rules, node, names, at);
      if path :| IsObstacle(rules, node, at, path) {
        assert ObstacleUnder(rules, node, names, at, path);
      }
    case SymbolicLink =>
      assert IsObstacle(rules, node, at, []);
    case Special =>
      assert IsObstacle(rules, node, at, []);
  }

  lemma {:induction false} WalkNamesFails(order: set<string> -> seq<string>, rules: Rules, dir: Node, names: seq<string>,
                                          at: seq<string>)
    requires Lists(order) && dir.Directory? && forall i :: 0 <= i < |names| ==> names[i] in dir.entries
    ensures WalkNames(order, rules, dir, names, at).None? <==>
            exists path :: ObstacleUnder(rules, dir, names, at, path)
    decreases dir, 0, |names|
  {
    if names == [] {
    } else {
      var child, below := dir.entries[names[0]], at + [names[0]];
      WalkNodeFails(order, rules, child, below);
      WalkNamesFails(order, rules, dir, names[1..], at);
      if path :| IsObstacle(rules, child, below, path) {
        ObstacleBelow(rules, dir, at, names[0], path);
        assert ObstacleUnder(rules, dir, names, at, [names[0]] + path);
      } else if path :| ObstacleUnder(rules, dir, names[1..], at, path) {
        assert ObstacleUnder(rules, dir, names, at, path);
      } else if path :| ObstacleUnder(rules, dir, names, at, path) {
        assert path == [path[0]] + path[1..];
        if path[0] == names[0] {
          ObstacleBelow(rules, dir, at, names[0], path[1..]);
        } else {
          assert ObstacleUnder(rules, dir, names[1..], at, path);
        }
        assert false;
      }
    }
  }

  lemma ObstacleBelow(rules: Rules, dir: Node, at: seq<string>, name: string, path: seq<string>)
    requires dir.Directory? && name in dir.entries
    ensures IsObstacle(rules, dir, at, [name] + path) <==> IsObstacle(rules, dir.entries[name], at + [name], path)
  {
    var longer := [name] + path;
    assert longer[1..] == path && at + longer == at + [name] + path;
  }

  // ---------------------------------------------------------------- independence of listing order

  lemma {:induction false} WalkNodeSame(a: set<string> -> seq<string>, b: set<string> -> seq<string>, rules: Rules,
                                        node: Node, at: seq<string>)
    requires forall names :: a(names) == b(names)
    ensures WalkNode(a, rules, node, at) == WalkNode(b, rules, node, at)
    decreases node, 1, 0
  {
    if node.Directory? {
      WalkNamesSame(a, b, rules, node, a(node.entries.Keys), at);
    }
  }

  lemma {:induction false} WalkNamesSame(a: set<string> -> seq<string>, b: set<string> -> seq<string>, rules: Rules,
                                         dir: Node, names: seq<string>, at: seq<string>)
    requires dir.Directory? && forall names :: a(names) == b(names)
    ensures WalkNames(a, rules, dir, names, at) == WalkNames(b, rules, dir, names, at)
    decreases dir, 0, |names|
  {
    if names != [] && names[0] in dir.entries {
      WalkNodeSame(a, b, rules, dir.entries[names[0]], at + [names[0]]);
      WalkNamesSame(a, b, rules, dir, names[1..], at);
    }
  }

  /** Listings in the order the program takes them: as the file system returns them, then sorted. */
  function SortedListings(readdir: set<string> -> seq<string>): set<string> -> seq<string> {
    names => Sort(readdir(names))
  }

  lemma SortedListingIsListing(listing: seq<string>, names: set<string>)
    requires IsListing(listing, names)
    ensures IsListing(Sort(listing), names)
  {
    SortPermutes(Itself, listing);
    forall name
      ensures name in Sort(listing) <==> name in names
    {
      assert name in Sort(listing) <==> name in multiset(Sort(listing));
    }
    SortDistinct(Itself, listing);
  }

  lemma SortedListingsList(readdir: set<string> -> seq<string>)
    requires Lists(readdir)
    ensures Lists(SortedListings(readdir))
  {
    forall names
      ensures IsListing(SortedListings(readdir)(names), names)
    {
      SortedListingIsListing(readdir(names), names);
    }
  }

  /** Two hosts that list directories in different orders collect the same entries in the same order. */
  lemma EntriesIgnoreListingOrder(here: set<string> -> seq<string>, there: set<string> -> seq<string>, rules: Rules,
                                  node: Node, at: seq<string>)
    requires Lists(here) && Lists(there)
    ensures WalkNode(SortedListings(here), rules, node, at) == WalkNode(SortedListings(there), rules, node, at)
  {
    forall names
      ensures SortedListings(here)(names) == SortedListings(there)(names)
    {
      var a, b := here(names), there(names);
      assert IsListing(a, names) && IsListing(b, names);
      assert Members(a) == names == Members(b);
      SortOfSameSet(a, b);
    }
    WalkNodeSame(SortedListings(here), SortedListings(there), rules, node, at);
  }

  // ---------------------------------------------------------------- the program's recursion

  /** The walk with the array it pushes onto. */
  class Collector {
    var output: seq<Found>

    constructor ()
      ensures output == []
    {
      output := [];
    }

    method CollectEntries(order: set<string> -> seq<string>, rules: Rules, current: Node, at: seq<string>)
        returns (ok: bool)
      requires Lists(order) && current.Directory?
      modifies this
      ensures ok <==> WalkNode(order, rules, current, at).Some?
      ensures ok ==> output == old(output) + WalkNode(order, rules, current, at).value
      decreases current, 0
    {
      var children := order(current.entries.Keys);
      ghost var walked := [];
      WalkStart(order, rules, current, children, at);
      for k := 0 to |children|
        invariant output == old(output) + walked
        invariant WalkFrom(order, rules, current, children, at, walked, k)
      {
        WalkStep(order, rules, current, children, at, walked, k);
        ghost var entry := WalkNode(order, rules, current.entries[children[k]], at + [children[k]]);
        ok := CollectChild(order, rules, current.entries[children[k]], at + [children[k]]);
        if !ok {
          return;
        }
        walked := walked + entry.value;
      }
      WalkEnd(order, rules, current, children, at, walked);
      ok := true;
    }

    /** The loop's body: one child of the directory. */
    method CollectChild(order: set<string> -> seq<string>, rules: Rules, child: Node, at: seq<string>)
        returns (ok: bool)
      requires Lists(order)
      modifies this
      ensures ok <==> WalkNode(order, rules, child, at).Some?
      ensures ok ==> output == old(output) + WalkNode(order, rules, child, at).value
      decreases child, 1
    {
      match child
      case SymbolicLink => ok := false;
      case Directory(_) => ok := CollectEntries(order, rules, child, at);
      case Special => ok := false;
      case File(size, executable) =>
        ok := AllPass(rules, at);
        if ok {
          output := output + [Collected(rules, at, size, executable)];
        }
    }
  }

  /** After `k` children: the whole walk is what was collected and the walk of the rest. */
  ghost predicate WalkFrom(order: set<string> -> seq<string>, rules: Rules, dir: Node, names: seq<string>, at: seq<string>,
                           walked: seq<Found>, k: nat)
    requires dir.Directory? && k <= |names|
  {
    && (forall i :: 0 <= i < |names| ==> names[i] in dir.entries)
    && match WalkNames(order, rules, dir, names[k..], at)
       case None => WalkNode(order, rules, dir, at) == None
       case Some(rest) => WalkNode(order, rules, dir, at) == Some(walked + rest)
  }

  lemma WalkStart(order: set<string> -> seq<string>, rules: Rules, dir: Node, names: seq<string>, at: seq<string>)
    requires dir.Directory? && Lists(order) && names == order(dir.entries.Keys)
    ensures WalkFrom(order, rules, dir, names, at, [], 0)
  {
    assert IsListing(names, dir.entries.Keys);
    assert names[0..] == names;
    var all := WalkNames(order, rules, dir, names, at);
    if all.Some? {
      assert [] + all.value == all.value;
    }
  }

  lemma WalkEnd(order: set<string> -> seq<string>, rules: Rules, dir: Node, names: seq<string>, at: seq<string>,
                walked: seq<Found>)
    requires dir.Directory? && WalkFrom(order, rules, dir, names, at, walked, |names|)
    ensures WalkNode(order, rules, dir, at) == Some(walked)
  {
    assert names[|names|..] == [];
    assert walked + [] == walked;
  }

  lemma WalkStep(order: set<string> -> seq<string>, rules: Rules, dir: Node, names: seq<string>, at: seq<string>,
                 walked: seq<Found>, k: nat)
    requires dir.Directory? && k < |names| && WalkFrom(order, rules, dir, names, at, walked, k)
    ensures names[k] in dir.entries
    ensures match WalkNode(order, rules, dir.entries[names[k]], at + [names[k]])
            case None => WalkNode(order, rules, dir, at) == None
            case Some(entry) => WalkFrom(order, rules, dir, names, at, walked + entry, k + 1)
  {
    var rest := names[k..];
    assert rest[0] == names[k] && rest[1..] == names[k + 1..];
    var entry := WalkNode(order, rules, dir.entries[names[k]], at + [names[k]]);
    var after := WalkNames(order, rules, dir, names[k + 1..], at);
    if entry.Some? && after.Some? {
      assert walked + (entry.value + after.value) == walked + entry.value + after.value;
    }
  }
}
