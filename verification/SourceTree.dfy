/** `hashTreeEntries` of `scripts/release-source.ts`: the stream a source tree is hashed as, and why it is the same for
    two trees exactly when they hold the same files. */
module SourceTree {
  import opened Wrappers
  import opened Sorting
  import opened Utf8
  import opened PortablePath
  import opened ReleaseTree
  import opened Inventory

  /** A tree with the content hash of each of its files. */
  datatype HashedTree = HashedTree(root: Node, sha256: seq<string> -> string)

  /** One file as the stream names it. */
  datatype Leaf = Leaf(segments: seq<string>, size: nat, sha256: string)

  /** The walk refuses links and special files and nothing else. */
  function AnyPath(): Rules {
    Rules(segment => true, {})
  }

  ghost function LeafOf(sha256: seq<string> -> string, f: Found): Leaf {
    Leaf(f.segments, f.size, sha256(f.segments))
  }

  ghost function Leaves(sha256: seq<string> -> string, found: seq<Found>): (r: seq<Leaf>)
    ensures |r| == |found| && forall i :: 0 <= i < |r| ==> r[i] == LeafOf(sha256, found[i])
  {
    if found == [] then [] else [LeafOf(sha256, found[0])] + Leaves(sha256, found[1..])
  }

  /** What one file adds to the stream. */
  ghost function LeafText(leaf: Leaf): string {
    Join(leaf.segments) + "\0" + (Decimal(leaf.size) + "\0" + (leaf.sha256 + "\0"))
  }

  ghost function Stream(leaves: seq<Leaf>): string {
    if leaves == [] then "" else LeafText(leaves[0]) + Stream(leaves[1..])
  }

  // ---------------------------------------------------------------- reading the stream

  function FieldEnd(s: string): (n: nat)
    ensures n <= |s|
  {
    if s == "" || s[0] == '\0' then 0 else 1 + FieldEnd(s[1..])
  }

  lemma {:induction false} FieldEnds(field: string, rest: string)
    requires '\0' !in field
    ensures FieldEnd(field + "\0" + rest) == |field|
  {
    var s := field + "\0" + rest;
    if field != "" {
      assert s[1..] == field[1..] + "\0" + rest;
      FieldEnds(field[1..], rest);
    }
  }

  lemma FieldsAgree(a: string, x: string, b: string, y: string)
    requires '\0' !in a && '\0' !in b && a + "\0" + x == b + "\0" + y
    ensures a == b && x == y
  {
    var s, t := a + "\0" + x, b + "\0" + y;
    FieldEnds(a, x);
    FieldEnds(b, y);
    assert s[..|a|] == a && t[..|b|] == b;
    assert s[|a| + 1..] == x && t[|b| + 1..] == y;
  }

  /** A path a file system can hold: segments that are not empty and hold neither slash nor NUL. */
  ghost predicate IsPath(segments: seq<string>) {
    segments != [] && forall i :: 0 <= i < |segments| ==> '/' !in segments[i] && '\0' !in segments[i]
  }

  ghost predicate IsLeaf(leaf: Leaf) {
    IsPath(leaf.segments) && '\0' !in leaf.sha256
  }

  lemma {:induction false} JoinHasNoNul(segments: seq<string>)
    requires forall i :: 0 <= i < |segments| ==> '\0' !in segments[i]
    ensures '\0' !in Join(segments)
  {
    if |segments| > 1 {
      JoinHasNoNul(segments[1..]);
    }
  }

  lemma DecimalHasNoNul(n: nat)
    ensures '\0' !in Decimal(n)
  {
    DecimalDigits(n);
  }

  lemma Regroup(a: string, b: string, c: string, d: string)
    ensures a + "\0" + (b + "\0" + (c + "\0")) + d == a + "\0" + (b + "\0" + (c + "\0" + d))
  {
  }

  /** The first file can be read off a stream, whatever follows. */
  lemma FirstLeafAgrees(a: Leaf, x: string, b: Leaf, y: string)
    requires IsLeaf(a) && IsLeaf(b) && LeafText(a) + x == LeafText(b) + y
    ensures a == b && x == y
  {
    Regroup(Join(a.segments), Decimal(a.size), a.sha256, x);
    Regroup(Join(b.segments), Decimal(b.size), b.sha256, y);
    JoinHasNoNul(a.segments);
    JoinHasNoNul(b.segments);
    DecimalHasNoNul(a.size);
    DecimalHasNoNul(b.size);
    FieldsAgree(Join(a.segments), Decimal(a.size) + "\0" + (a.sha256 + "\0" + x),
                Join(b.segments), Decimal(b.size) + "\0" + (b.sha256 + "\0" + y));
    FieldsAgree(Decimal(a.size), a.sha256 + "\0" + x, Decimal(b.size), b.sha256 + "\0" + y);
    FieldsAgree(a.sha256, x, b.sha256, y);
    JoinInjective(a.segments, b.segments);
    DecimalInjective(a.size, b.size);
  }

  lemma StreamEmpty(xs: seq<Leaf>)
    ensures Stream(xs) == "" <==> xs == []
  {
    if xs != [] {
      assert |LeafText(xs[0])| > 0;
    }
  }

  /** The stream determines the list of files. */
  lemma {:induction false} StreamDecidesList(xs: seq<Leaf>, ys: seq<Leaf>)
    requires forall leaf :: leaf in xs || leaf in ys ==> IsLeaf(leaf)
    requires Stream(xs) == Stream(ys)
    ensures xs == ys
  {
    if xs == [] || ys == [] {
      StreamEmpty(xs);
      StreamEmpty(ys);
    } else {
      FirstLeafAgrees(xs[0], Stream(xs[1..]), ys[0], Stream(ys[1..]));
      StreamDecidesList(xs[1..], ys[1..]);
      assert xs == [xs[0]] + xs[1..] && ys == [ys[0]] + ys[1..];
    }
  }

  // ---------------------------------------------------------------- the order of the walk

  /** Two paths part at a segment, where the first comes earlier. */
  ghost predicate PartsAt(a: seq<string>, b: seq<string>, k: nat) {
    k < |a| && k < |b| && a[..k] == b[..k] && a[k] != b[k] && NotAfter(a[k], b[k])
  }

  ghost predicate Parts(a: seq<string>, b: seq<string>) {
    exists k :: PartsAt(a, b, k)
  }

  ghost predicate Before(a: Leaf, b: Leaf) {
    Parts(a.segments, b.segments)
  }

  lemma SameBefore(a: seq<string>, b: seq<string>, k: nat, m: nat)
    requires k < m <= |a| && m <= |b| && a[..m] == b[..m]
    ensures a[k] == b[k]
  {
    assert a[..m][k] == a[k] && b[..m][k] == b[k];
  }

  lemma PartOnce(a: seq<string>, b: seq<string>, k: nat)
    requires PartsAt(a, b, k)
    ensures !Parts(b, a)
  {
    if Parts(b, a) {
      var m: nat :| PartsAt(b, a, m);
      OrderIsTotal(a[k], b[k]);
      if k < m {
        SameBefore(b, a, k, m);
      }
      if m < k {
        SameBefore(a, b, m, k);
      }
    }
  }

  lemma BeforeIsAsymmetric()
    ensures Asymmetric(Before)
  {
    forall a, b | Before(a, b)
      ensures !Before(b, a)
    {
      var k :| PartsAt(a.segments, b.segments, k);
      PartOnce(a.segments, b.segments, k);
    }
  }

  ghost predicate InWalkOrder(found: seq<Found>) {
    forall i, j :: 0 <= i < j < |found| ==> Parts(found[i].segments, found[j].segments)
  }

  lemma OrderConcat(a: seq<Found>, b: seq<Found>)
    requires InWalkOrder(a) && InWalkOrder(b)
    requires forall i, j :: 0 <= i < |a| && 0 <= j < |b| ==> Parts(a[i].segments, b[j].segments)
    ensures InWalkOrder(a + b)
  {
  }

  ghost predicate NamesSorted(names: seq<string>) {
    IsSorted(Itself, names) && Distinct(names)
  }

  /** A walk over sorted listings meets files in the order of their segments. */
  lemma {:induction false} WalkNodeOrdered(order: set<string> -> seq<string>, rules: Rules, node: Node, at: seq<string>)
    requires Lists(order) && (forall names :: NamesSorted(order(names)))
    requires WalkNode(order, rules, node, at).Some?
    ensures InWalkOrder(WalkNode(order, rules, node, at).value)
    decreases node, 1, 0
  {
    if node.Directory? {
      assert IsListing(order(node.entries.Keys), node.entries.Keys);
      assert NamesSorted(order(node.entries.Keys));
      WalkNamesOrdered(order, rules, node, order(node.entries.Keys), at);
    }
  }

  lemma {:induction false} WalkNamesOrdered(order: set<string> -> seq<string>, rules: Rules, dir: Node, names: seq<string>,
                                            at: seq<string>)
    requires Lists(order) && (forall names :: NamesSorted(order(names)))
    requires dir.Directory? && NamesSorted(names) && WalkNames(order, rules, dir, names, at).Some?
    ensures InWalkOrder(WalkNames(order, rules, dir, names, at).value)
    decreases dir, 0, |names|
  {
    if names != [] {
      var child, below := dir.entries[names[0]], at + [names[0]];
      var first := WalkNode(order, rules, child, below).value;
      var rest := WalkNames(order, rules, dir, names[1..], at).value;
      WalkNodeOrdered(order, rules, child, below);
      SortedTail(names);
      WalkNamesOrdered(order, rules, dir, names[1..], at);
      forall i, j | 0 <= i < |first| && 0 <= j < |rest|
        ensures Parts(first[i].segments, rest[j].segments)
      {
        ChildrenPart(order, rules, dir, names, at, first[i], rest[j]);
      }
      OrderConcat(first, rest);
    }
  }

  lemma SortedTail(names: seq<string>)
    requires NamesSorted(names) && names != []
    ensures NamesSorted(names[1..])
    ensures forall name :: name in names[1..] ==> name != names[0] && NotAfter(names[0], name)
  {
    TailKeeps(Itself, names);
    assert forall i :: 0 <= i < |names[1..]| ==> names[1..][i] == names[i + 1];
    forall name | name in names[1..]
      ensures name != names[0] && NotAfter(names[0], name)
    {
      var i :| 0 <= i < |names[1..]| && names[1..][i] == name;
      assert NotAfter(Itself(names[0]), Itself(names[i + 1]));
    }
  }

  lemma ChildrenPart(order: set<string> -> seq<string>, rules: Rules, dir: Node, names: seq<string>, at: seq<string>,
                     f: Found, g: Found)
    requires Lists(order) && dir.Directory? && NamesSorted(names) && names != [] && names[0] in dir.entries
    requires WalkNode(order, rules, dir.entries[names[0]], at + [names[0]]).Some?
    requires WalkNames(order, rules, dir, names[1..], at).Some?
    requires f in WalkNode(order, rules, dir.entries[names[0]], at + [names[0]]).value
    requires g in WalkNames(order, rules, dir, names[1..], at).value
    ensures PartsAt(f.segments, g.segments, |at|)
  {
    var below := at + [names[0]];
    WalkNodeSound(order, rules, dir.entries[names[0]], below, f);
    WalkNamesSound(order, rules, dir, names[1..], at, g);
    SortedTail(names);
    assert f.segments[..|below|] == below;
    assert f.segments[|at|] == f.segments[..|below|][|at|] == names[0];
    assert f.segments[..|at|] == f.segments[..|below|][..|at|] == at;
  }

  lemma SortedListingsSort(readdir: set<string> -> seq<string>)
    requires Lists(readdir)
    ensures Lists(SortedListings(readdir)) && forall names :: NamesSorted(SortedListings(readdir)(names))
  {
    SortedListingsList(readdir);
    forall names
      ensures NamesSorted(SortedListings(readdir)(names))
    {
      assert IsListing(SortedListings(readdir)(names), names);
      SortSorts(Itself, readdir(names));
    }
  }

  // ---------------------------------------------------------------- the stream of a tree

  /** The files of a tree in the order they are hashed; none when the tree holds a link or a special file. */
  ghost function TreeLeaves(readdir: set<string> -> seq<string>, tree: HashedTree): Option<seq<Leaf>> {
    var found := WalkNode(SortedListings(readdir), AnyPath(), tree.root, []);
    if found.None? then None else Some(Leaves(tree.sha256, found.value))
  }

  /** The file at a path, with its size and content hash. */
  ghost predicate HoldsFile(tree: HashedTree, leaf: Leaf) {
    var node := NodeAt(tree.root, leaf.segments);
    node.Some? && node.value.File? && node.value.size == leaf.size && tree.sha256(leaf.segments) == leaf.sha256
  }

  /** The names a file system can hold, and hashes in hexadecimal. */
  ghost predicate IsRealTree(tree: HashedTree) {
    && tree.root.Directory?
    && forall leaf :: HoldsFile(tree, leaf) ==> IsLeaf(leaf)
  }

  /** The walk hashes exactly the files of the tree. */
  lemma LeavesAreFiles(readdir: set<string> -> seq<string>, tree: HashedTree, leaf: Leaf)
    requires Lists(readdir) && TreeLeaves(readdir, tree).Some?
    ensures leaf in TreeLeaves(readdir, tree).value <==> HoldsFile(tree, leaf)
  {
    var order := SortedListings(readdir);
    SortedListingsSort(readdir);
    var found := WalkNode(order, AnyPath(), tree.root, []).value;
    var leaves := Leaves(tree.sha256, found);
    if leaf in leaves {
      var i :| 0 <= i < |leaves| && leaves[i] == leaf;
      WalkNodeSound(order, AnyPath(), tree.root, [], found[i]);
      assert found[i].segments[0..] == found[i].segments;
    }
    if HoldsFile(tree, leaf) {
      WalkNodeComplete(order, AnyPath(), tree.root, [], leaf.segments);
      assert [] + leaf.segments == leaf.segments;
      var i :| 0 <= i < |found| && found[i].segments == leaf.segments;
      WalkNodeSound(order, AnyPath(), tree.root, [], found[i]);
      assert found[i].segments[0..] == found[i].segments;
      assert leaves[i] == leaf;
    }
  }

  lemma LeavesAreOrdered(readdir: set<string> -> seq<string>, tree: HashedTree)
    requires Lists(readdir) && TreeLeaves(readdir, tree).Some?
    ensures Ordered(Before, TreeLeaves(readdir, tree).value)
  {
    SortedListingsSort(readdir);
    WalkNodeOrdered(SortedListings(readdir), AnyPath(), tree.root, []);
  }

  /** Two trees are hashed as the same stream exactly when they hold the same files with the same contents' hashes,
      whatever order their directories list in. */
  lemma SameStreamExactlyWhenSameFiles(
    here: set<string> -> seq<string>, there: set<string> -> seq<string>, a: HashedTree, b: HashedTree)
    requires Lists(here) && Lists(there) && IsRealTree(a) && IsRealTree(b)
    requires TreeLeaves(here, a).Some? && TreeLeaves(there, b).Some?
    ensures Stream(TreeLeaves(here, a).value) == Stream(TreeLeaves(there, b).value) <==>
            forall leaf :: HoldsFile(a, leaf) <==> HoldsFile(b, leaf)
  {
    var xs, ys := TreeLeaves(here, a).value, TreeLeaves(there, b).value;
    forall leaf
      ensures leaf in xs <==> HoldsFile(a, leaf)
      ensures leaf in ys <==> HoldsFile(b, leaf)
    {
      LeavesAreFiles(here, a, leaf);
      LeavesAreFiles(there, b, leaf);
    }
    SameListExactlyWhenSameFiles(here, there, a, b, xs, ys);
  }

  lemma SameListExactlyWhenSameFiles(
    here: set<string> -> seq<string>, there: set<string> -> seq<string>, a: HashedTree, b: HashedTree,
    xs: seq<Leaf>, ys: seq<Leaf>)
    requires Lists(here) && Lists(there) && IsRealTree(a) && IsRealTree(b)
    requires TreeLeaves(here, a) == Some(xs) && TreeLeaves(there, b) == Some(ys)
    requires forall leaf :: leaf in xs <==> HoldsFile(a, leaf)
    requires forall leaf :: leaf in ys <==> HoldsFile(b, leaf)
    ensures Stream(xs) == Stream(ys) <==> forall leaf :: HoldsFile(a, leaf) <==> HoldsFile(b, leaf)
  {
    if Stream(xs) == Stream(ys) {
      StreamDecidesList(xs, ys);
    }
    if forall leaf :: HoldsFile(a, leaf) <==> HoldsFile(b, leaf) {
      LeavesAreOrdered(here, a);
      LeavesAreOrdered(there, b);
      BeforeIsAsymmetric();
      OrderedUnique(Before, xs, ys);
    }
  }

  // ---------------------------------------------------------------- the program's recursion

  lemma {:induction false} StreamConcat(xs: seq<Leaf>, ys: seq<Leaf>)
    ensures Stream(xs + ys) == Stream(xs) + Stream(ys)
  {
    if xs == [] {
      assert xs + ys == ys;
    } else {
      assert (xs + ys)[1..] == xs[1..] + ys;
      StreamConcat(xs[1..], ys);
    }
  }

  lemma {:induction false} LeavesConcat(sha256: seq<string> -> string, xs: seq<Found>, ys: seq<Found>)
    ensures Leaves(sha256, xs + ys) == Leaves(sha256, xs) + Leaves(sha256, ys)
  {
  }

  ghost function FoundText(sha256: seq<string> -> string, found: seq<Found>): string {
    Stream(Leaves(sha256, found))
  }

  lemma FoundConcat(sha256: seq<string> -> string, xs: seq<Found>, ys: seq<Found>)
    ensures FoundText(sha256, xs + ys) == FoundText(sha256, xs) + FoundText(sha256, ys)
  {
    LeavesConcat(sha256, xs, ys);
    StreamConcat(Leaves(sha256, xs), Leaves(sha256, ys));
  }

  /** The hash has been fed the text of these files on top of what it had. */
  ghost predicate IsFed(sha256: seq<string> -> string, before: string, found: seq<Found>, after: string) {
    after == before + FoundText(sha256, found)
  }

  lemma NothingFed(sha256: seq<string> -> string, fed: string)
    ensures IsFed(sha256, fed, [], fed)
  {
  }

  lemma FedNext(sha256: seq<string> -> string, a: string, xs: seq<Found>, b: string, ys: seq<Found>, c: string)
    requires IsFed(sha256, a, xs, b) && IsFed(sha256, b, ys, c)
    ensures IsFed(sha256, a, xs + ys, c)
  {
    FoundConcat(sha256, xs, ys);
  }

  /** The walk with the hash it feeds; `fed` is everything the hash has been given. */
  class TreeHash {
    const sha256: seq<string> -> string
    var fed: string

    constructor (sha256: seq<string> -> string)
      ensures this.sha256 == sha256 && fed == ""
    {
      this.sha256 := sha256;
      fed := "";
    }

    method HashTreeEntries(order: set<string> -> seq<string>, ghost rules: Rules, current: Node, at: seq<string>) returns (ok: bool)
      requires Lists(order) && rules == AnyPath() && current.Directory?
      modifies `fed
      ensures ok <==> WalkNode(order, rules, current, at).Some?
      ensures ok ==> IsFed(sha256, old(fed), WalkNode(order, rules, current, at).value, fed)
      decreases current, 0
    {
      var children := order(current.entries.Keys);
      ghost var walked := [];
      WalkStart(order, rules, current, children, at);
      NothingFed(sha256, fed);
      for k := 0 to |children|
        invariant IsFed(sha256, old(fed), walked, fed)
        invariant WalkFrom(order, rules, current, children, at, walked, k)
      {
        WalkStep(order, rules, current, children, at, walked, k);
        ghost var entry := WalkNode(order, rules, current.entries[children[k]], at + [children[k]]);
        ghost var before := fed;
        ok := HashChild(order, rules, current.entries[children[k]], at + [children[k]]);
        if !ok {
          return;
        }
        FedNext(sha256, old(fed), walked, before, entry.value, fed);
        walked := walked + entry.value;
      }
      WalkEnd(order, rules, current, children, at, walked);
      ok := true;
    }

    /** The loop's body: one child of the directory. */
    method HashChild(order: set<string> -> seq<string>, ghost rules: Rules, child: Node, at: seq<string>) returns (ok: bool)
      requires Lists(order) && rules == AnyPath()
      modifies `fed
      ensures ok <==> WalkNode(order, rules, child, at).Some?
      ensures ok ==> IsFed(sha256, old(fed), WalkNode(order, rules, child, at).value, fed)
      decreases child, 1
    {
      match child
      case SymbolicLink => ok := false;
      case Directory(_) => ok := HashTreeEntries(order, rules, child, at);
      case Special => ok := false;
      case File(size, executable) =>
        ok := true;
        fed := fed + (Join(at) + "\0" + Decimal(size) + "\0" + sha256(at) + "\0");
        FieldsTogether(Join(at), Decimal(size), sha256(at));
        OneFound(sha256, at, size, executable);
    }
  }

  lemma FieldsTogether(a: string, b: string, c: string)
    ensures a + "\0" + b + "\0" + c + "\0" == a + "\0" + (b + "\0" + (c + "\0"))
  {
  }

  lemma OneFound(sha256: seq<string> -> string, at: seq<string>, size: nat, executable: bool)
    ensures FoundText(sha256, [Collected(AnyPath(), at, size, executable)]) == LeafText(Leaf(at, size, sha256(at)))
  {
    var leaf := Leaf(at, size, sha256(at));
    assert Leaves(sha256, [Collected(AnyPath(), at, size, executable)]) == [leaf];
    assert Stream([leaf][1..]) == "";
  }

  /** `hashReleaseSourceTree`: the text whose hash identifies the tree. */
  method HashReleaseSourceTree(readdir: set<string> -> seq<string>, tree: HashedTree) returns (r: Option<string>)
    requires Lists(readdir) && tree.root.Directory?
    ensures r.Some? <==> TreeLeaves(readdir, tree).Some?
    ensures r.Some? ==> r.value == Stream(TreeLeaves(readdir, tree).value)
  {
    SortedListingsList(readdir);
    var hash := new TreeHash(tree.sha256);
    var ok := hash.HashTreeEntries(SortedListings(readdir), AnyPath(), tree.root, []);
    r := if ok then Some(hash.fed) else None;
  }
}
