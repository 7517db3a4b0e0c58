/** The checks `createDeterministicTar` makes between collecting entries and writing them, and the whole
    path from a tree to an archive of `scripts/release-archive.ts`. */
module ArchiveInputs {
  import opened Wrappers
  import opened PortablePath
  import opened ReleaseTree
  import opened Sorting
  import opened Bits
  import opened Files
  import opened Inventory
  import Archive
  import Ustar
  import Utf8

  datatype Problem =
    | NoEntries
    | PathsCollide
    | ExecutableAbsent
    | ReceiptInvalid
    | ReceiptCountDiffers
    | ReceiptMissing

  ghost predicate KeysDistinct(key: string -> string, paths: seq<string>) {
    forall i, j :: 0 <= i < j < |paths| ==> key(paths[i]) != key(paths[j])
  }

  ghost predicate ReceiptsValid(portable: string -> bool, receipts: map<string, string>) {
    forall path :: path in receipts ==>
      && (forall i :: 0 <= i < |Split(path)| ==> portable(Split(path)[i]))
      && IsHash(receipts[path])
  }

  /** First loop: a map from collision key to path; two paths with one key are refused. */
  method CheckCollisions(key: string -> string, paths: seq<string>) returns (ok: bool)
    requires "" !in paths
    ensures ok <==> KeysDistinct(key, paths)
  {
    var seen: map<string, string> := map[];
    for k := 0 to |paths|
      invariant KeysDistinct(key, paths[..k])
      invariant forall i :: 0 <= i < k ==> key(paths[i]) in seen && seen[key(paths[i])] != ""
      invariant forall folded :: folded in seen ==> exists i :: 0 <= i < k && key(paths[i]) == folded
    {
      var folded := key(paths[k]);
      if folded in seen && seen[folded] != "" {
        var i :| 0 <= i < k && key(paths[i]) == folded;
        assert !KeysDistinct(key, paths);
        return false;
      }
      seen := seen[folded := paths[k]];
    }
    assert paths[..|paths|] == paths;
    ok := true;
  }

  /** Second loop: every declared executable is archived. */
  method CheckExecutables(executables: seq<string>, archived: set<string>) returns (ok: bool)
    ensures ok <==> forall path :: path in executables ==> path in archived
  {
    for k := 0 to |executables|
      invariant forall i :: 0 <= i < k ==> executables[i] in archived
    {
      if executables[k] !in archived {
        return false;
      }
    }
    ok := true;
  }

  /** Third loop, after the size check: a receipt for every entry. */
  method CheckReceipts(receipts: map<string, string>, paths: seq<string>) returns (problem: Option<Problem>)
    requires Distinct(paths)
    ensures problem.None? <==> receipts.Keys == Members(paths)
    ensures problem.Some? ==> problem.value in {ReceiptCountDiffers, ReceiptMissing}
  {
    DistinctCount(paths);
    assert |receipts| == |receipts.Keys|;
    if |receipts| != |paths| {
      return Some(ReceiptCountDiffers);
    }
    for k := 0 to |paths|
      invariant forall i :: 0 <= i < k ==> paths[i] in receipts
    {
      if paths[k] !in receipts {
        assert paths[k] in Members(paths);
        return Some(ReceiptMissing);
      }
    }
    SubsetOfSameSize(Members(paths), receipts.Keys);
    problem := None;
  }

  lemma SubsetOfSameSize(a: set<string>, b: set<string>)
    requires a <= b && |a| == |b|
    ensures a == b
  {
    assert |b - a| == |b| - |a|;
  }

  lemma DistinctKeysDistinctPaths(key: string -> string, paths: seq<string>)
    requires KeysDistinct(key, paths)
    ensures Distinct(paths)
  {
    forall i, j | 0 <= i < j < |paths|
      ensures paths[i] != paths[j]
    {
      assert key(paths[i]) != key(paths[j]);
    }
  }

  /** All checks in order. Acceptance says: entries exist, no two collide after folding, executables are archived,
      and supplied receipts cover exactly the archived paths. (A declared executable whose own segments are not
      portable is refused before the walk; no archived path equals one, so here it is refused as absent.) */
  method CheckInputs(portable: string -> bool, key: string -> string, paths: seq<string>, executables: seq<string>,
                     receipts: Option<map<string, string>>)
      returns (problem: Option<Problem>)
    requires "" !in paths
    ensures problem.None? <==>
              && paths != []
              && KeysDistinct(key, paths)
              && (forall path :: path in executables ==> path in paths)
              && (receipts.Some? ==> ReceiptsValid(portable, receipts.value) && receipts.value.Keys == Members(paths))
    ensures problem == Some(PathsCollide) ==> !KeysDistinct(key, paths)
    ensures problem == Some(ExecutableAbsent) ==> exists path :: path in executables && path !in paths
  {
    if |paths| == 0 {
      return Some(NoEntries);
    }
    var apart := CheckCollisions(key, paths);
    if !apart {
      return Some(PathsCollide);
    }
    DistinctKeysDistinctPaths(key, paths);
    var archived := Members(paths);
    assert forall path :: path in paths <==> path in archived;
    var present := CheckExecutables(executables, archived);
    if !present {
      return Some(ExecutableAbsent);
    }
    if receipts.None? {
      return None;
    }
    var valid := CheckReceiptShapes(portable, receipts.value);
    if !valid {
      return Some(ReceiptInvalid);
    }
    problem := CheckReceipts(receipts.value, paths);
  }

  method CheckReceiptShapes(portable: string -> bool, receipts: map<string, string>) returns (ok: bool)
    ensures ok <==> ReceiptsValid(portable, receipts)
  {
    var rest := receipts.Keys;
    while rest != {}
      invariant rest <= receipts.Keys
      invariant forall path :: path in receipts && path !in rest ==>
                  && (forall i :: 0 <= i < |Split(path)| ==> portable(Split(path)[i]))
                  && IsHash(receipts[path])
      decreases |rest|
    {
      var path :| path in rest;
      var segments := Split(path);
      if (exists i :: 0 <= i < |segments| && !portable(segments[i])) || !IsHash(receipts[path]) {
        return false;
      }
      rest := rest - {path};
    }
    ok := true;
  }

  // ---------------------------------------------------------------- from the tree to the archive

  function ArchivePath(f: Found): string {
    Join(f.segments)
  }

  function AsEntry(f: Found): Archive.Entry {
    Archive.Entry(ArchivePath(f), f.executable, f.size)
  }

  /** What the walk collects can be archived: non-empty relative paths without NUL, no two the same. */
  lemma CollectedPathsArchivable(u: Unicode, order: set<string> -> seq<string>, rules: Rules, dir: Node, found: seq<Found>)
    requires dir.Directory? && Lists(order)
    requires forall s :: rules.portable(s) ==> IsPortableSegment(u, s)
    requires WalkNode(order, rules, dir, []) == Some(found)
    ensures forall i :: 0 <= i < |found| ==> Ustar.Archivable(ArchivePath(found[i]))
    ensures forall i, j :: 0 <= i < j < |found| ==> ArchivePath(found[i]) != ArchivePath(found[j])
  {
    forall i | 0 <= i < |found|
      ensures Ustar.Archivable(ArchivePath(found[i]))
      ensures found[i].segments != [] && NoSlash(found[i].segments)
    {
      SegmentsPortable(u, order, rules, dir, found, i);
      JoinIsRelative(u, found[i].segments);
      assert forall k :: 0 <= k < |found[i].segments| ==> IsPortableSegment(u, found[i].segments[k]);
    }
    WalkNodeDistinct(order, rules, dir, []);
    forall i, j | 0 <= i < j < |found|
      ensures ArchivePath(found[i]) != ArchivePath(found[j])
    {
      if ArchivePath(found[i]) == ArchivePath(found[j]) {
        JoinInjective(found[i].segments, found[j].segments);
      }
    }
  }

  lemma SegmentsPortable(u: Unicode, order: set<string> -> seq<string>, rules: Rules, dir: Node, found: seq<Found>, i: nat)
    requires dir.Directory? && i < |found|
    requires forall s :: rules.portable(s) ==> IsPortableSegment(u, s)
    requires WalkNode(order, rules, dir, []) == Some(found)
    ensures found[i].segments != [] && ArePortable(u, found[i].segments)
  {
    WalkNodeSound(order, rules, dir, [], found[i]);
    assert found[i].segments[0..] == found[i].segments;
  }

  ghost function AsEntries(found: seq<Found>): (r: seq<Archive.Entry>)
    ensures |r| == |found| && forall i :: 0 <= i < |found| ==> r[i] == AsEntry(found[i])
  {
    seq(|found|, i requires 0 <= i < |found| => AsEntry(found[i]))
  }

  /** From a tree to an archive and back: once the write loop finishes over what the walk collected, a reader
      of the format gets one record per file of the tree, under its path and mode, with the bytes read. */
  lemma TreeRoundTrip(u: Unicode, order: set<string> -> seq<string>, rules: Rules, dir: Node, found: seq<Found>,
                      inputs: seq<InputHandle>, epoch: nat, sha256: seq<byte> -> string,
                      receipts: map<string, string>, ms: seq<Archive.Framed>, path: seq<string>)
    requires dir.Directory? && Lists(order)
    requires forall s :: rules.portable(s) ==> IsPortableSegment(u, s)
    requires WalkNode(order, rules, dir, []) == Some(found) && |inputs| == |found|
    requires Archive.Progress(AsEntries(found), inputs, epoch, sha256, receipts, ms, |found|)
    requires NodeAt(dir, path).Some? && NodeAt(dir, path).value.File?
    ensures var records := Archive.Unarchive(Archive.Stream(ms));
            && records.Some? && |records.value| == |found|
            && exists i :: 0 <= i < |found|
                 && found[i].segments == path && |inputs[i].contents| == NodeAt(dir, path).value.size
                 && records.value[i] == Archive.Record(
                      Utf8.Encode(Join(path)),
                      if NodeAt(dir, path).value.executable || Join(path) in rules.executables then 493 else 420,
                      epoch, inputs[i].contents)
  {
    var entries := AsEntries(found);
    CollectedPathsArchivable(u, order, rules, dir, found);
    forall i | 0 <= i < |entries|
      ensures Ustar.Archivable(entries[i].path)
    {
      assert Ustar.Archivable(ArchivePath(found[i]));
    }
    Archive.FinishedUnarchives(entries, inputs, epoch, sha256, receipts, ms);
    WalkNodeComplete(order, rules, dir, [], path);
    var i :| 0 <= i < |found| && found[i].segments == [] + path;
    assert found[i].segments == path;
    WalkNodeSound(order, rules, dir, [], found[i]);
    assert found[i].segments[0..] == path;
    var item := Archive.ItemOf(entries[i], inputs[i]);
    assert Archive.ItemsOf(entries, inputs)[i] == item;
    assert Archive.AsRecords(Archive.ItemsOf(entries, inputs), epoch)[i] == Archive.AsRecord(item, epoch);
  }
}
