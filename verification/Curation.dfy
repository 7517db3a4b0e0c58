/** The declared file list of a Bun runtime curation in `scripts/release-licenses.ts`: its path checks, and why an
    accepted list is a real tree that enumerates back to itself. */
module Curation {
  import opened Wrappers
  import opened Sorting
  import opened PortablePath
  import opened ReleaseTree
  import opened Texts

  const MANIFEST := "CURATION.json"
  const FOLDED_MANIFEST := "curation.json"

  // ---------------------------------------------------------------- one path

  /** `assertPortableRelativePath`. */
  predicate IsPortablePath(u: Unicode, path: string) {
    && 0 < |path| <= 512 && '\\' !in path && path[0] != '/' && path[|path| - 1] != '/'
    && |Split(path)| <= 8
    && ArePortable(u, Split(path))
  }

  /** A declared path: at most 512 characters and eight segments, relative, every segment portable. */
  ghost predicate IsDeclarable(u: Unicode, path: string) {
    && 0 < |path| <= 512 && path[0] != '/' && path[|path| - 1] != '/' && '\\' !in path
    && |Split(path)| <= 8
    && forall i :: 0 <= i < |Split(path)| ==> IsPortableSegment(u, Split(path)[i])
  }

  /** One path is the other, or a directory above it. */
  predicate Conflict(a: string, b: string) {
    a == b || a + "/" <= b || b + "/" <= a
  }

  lemma ConflictSymmetric(a: string, b: string)
    ensures Conflict(a, b) <==> Conflict(b, a)
  {
  }

  ghost predicate ConflictFree(paths: seq<string>) {
    forall i, j :: 0 <= i < j < |paths| ==> !Conflict(paths[i], paths[j])
  }

  function Folded(u: Unicode, paths: seq<string>): (r: seq<string>)
    ensures |r| == |paths| && forall i :: 0 <= i < |r| ==> r[i] == u.lower(paths[i])
  {
    if paths == [] then [] else [u.lower(paths[0])] + Folded(u, paths[1..])
  }

  /** Portable paths, none the manifest's own, and no two in conflict once folded, the manifest included. */
  ghost predicate IsAccepted(u: Unicode, paths: seq<string>) {
    && (forall i :: 0 <= i < |paths| ==> IsDeclarable(u, paths[i]) && paths[i] != "CURATION.json")
    && ConflictFree(["curation.json"] + Folded(u, paths))
  }

  // ---------------------------------------------------------------- the loop

  ghost predicate AreMembers(list: seq<string>, of: set<string>) {
    forall x :: x in of <==> x in list
  }

  lemma ConflictFreeSnoc(list: seq<string>, x: string)
    ensures ConflictFree(list + [x]) <==> ConflictFree(list) && forall y :: y in list ==> !Conflict(y, x)
  {
    var more := list + [x];
    if ConflictFree(more) {
      forall i, j | 0 <= i < j < |list|
        ensures !Conflict(list[i], list[j])
      {
        assert !Conflict(more[i], more[j]);
      }
      forall y | y in list
        ensures !Conflict(y, x)
      {
        var i :| 0 <= i < |list| && list[i] == y;
        assert !Conflict(more[i], more[|list|]);
      }
    }
  }

  lemma ConflictFreePrefix(list: seq<string>, n: nat)
    requires ConflictFree(list) && n <= |list|
    ensures ConflictFree(list[..n])
  {
  }

  lemma FoldedNext(u: Unicode, paths: seq<string>, i: nat)
    requires i < |paths|
    ensures [FOLDED_MANIFEST] + Folded(u, paths[..i + 1]) == [FOLDED_MANIFEST] + Folded(u, paths[..i]) + [u.lower(paths[i])]
  {
    assert paths[..i + 1] == paths[..i] + [paths[i]];
  }

  ghost predicate Accepting(u: Unicode, paths: seq<string>, i: nat, seen: set<string>, folded: set<string>)
    requires i <= |paths|
  {
    && IsAccepted(u, paths[..i])
    && AreMembers(paths[..i], seen)
    && AreMembers([FOLDED_MANIFEST] + Folded(u, paths[..i]), folded)
  }

  lemma AcceptingNext(u: Unicode, paths: seq<string>, i: nat, seen: set<string>, folded: set<string>)
    requires i < |paths| && Accepting(u, paths, i, seen, folded)
    requires IsPortablePath(u, paths[i]) && paths[i] != MANIFEST
    requires forall y :: y in folded ==> !Conflict(y, u.lower(paths[i]))
    ensures Accepting(u, paths, i + 1, seen + {paths[i]}, folded + {u.lower(paths[i])})
  {
    var list := [FOLDED_MANIFEST] + Folded(u, paths[..i]);
    FoldedNext(u, paths, i);
    ConflictFreeSnoc(list, u.lower(paths[i]));
    assert paths[..i + 1] == paths[..i] + [paths[i]];
  }

  lemma Rejected(u: Unicode, paths: seq<string>, i: nat, seen: set<string>, folded: set<string>)
    requires i < |paths| && Accepting(u, paths, i, seen, folded)
    requires paths[i] in seen || exists y :: y in folded && Conflict(y, u.lower(paths[i]))
    ensures !IsAccepted(u, paths)
  {
    var list := [FOLDED_MANIFEST] + Folded(u, paths[..i]);
    var x := u.lower(paths[i]);
    if paths[i] in seen {
      var k :| 0 <= k < i && paths[..i][k] == paths[i];
      assert list[k + 1] == x;
      assert x in list && Conflict(x, x);
    }
    FoldedNext(u, paths, i);
    ConflictFreeSnoc(list, x);
    assert !ConflictFree([FOLDED_MANIFEST] + Folded(u, paths[..i + 1]));
    var all := [FOLDED_MANIFEST] + Folded(u, paths);
    assert all[..i + 2] == [FOLDED_MANIFEST] + Folded(u, paths[..i + 1]);
    if ConflictFree(all) {
      ConflictFreePrefix(all, i + 2);
    }
  }

  /** The path loop of `parseBunCurationManifest`. */
  method CheckPaths(u: Unicode, paths: seq<string>) returns (ok: bool)
    ensures ok <==> IsAccepted(u, paths)
  {
    var seen: set<string>, folded: set<string> := {}, {FOLDED_MANIFEST};
    assert [FOLDED_MANIFEST] + Folded(u, paths[..0]) == [FOLDED_MANIFEST];
    for i := 0 to |paths|
      invariant Accepting(u, paths, i, seen, folded)
    {
      if !IsPortablePath(u, paths[i]) {
        return false;
      }
      var x := u.lower(paths[i]);
      if paths[i] == MANIFEST || paths[i] in seen || exists y :: y in folded && Conflict(y, x) {
        if paths[i] != MANIFEST {
          Rejected(u, paths, i, seen, folded);
        }
        return false;
      }
      AcceptingNext(u, paths, i, seen, folded);
      seen := seen + {paths[i]};
      folded := folded + {x};
    }
    assert paths[..|paths|] == paths;
    ok := true;
  }
}
