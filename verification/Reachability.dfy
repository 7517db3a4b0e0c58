/** Reachability over a successor function, and the worklist argument shared by the two closures of
    `scripts/release-sbom.ts`. */
module Reachability {
  ghost predicate IsPath<T(!new)>(roots: set<T>, next: T -> set<T>, path: seq<T>) {
    && path != [] && path[0] in roots
    && forall i :: 0 < i < |path| ==> path[i] in next(path[i - 1])
  }

  ghost predicate Reachable<T(!new)>(roots: set<T>, next: T -> set<T>, x: T) {
    exists path :: IsPath(roots, next, path) && path[|path| - 1] == x
  }

  lemma RootReached<T(!new)>(roots: set<T>, next: T -> set<T>, x: T)
    requires x in roots
    ensures Reachable(roots, next, x)
  {
    assert IsPath(roots, next, [x]);
  }

  lemma StepReached<T(!new)>(roots: set<T>, next: T -> set<T>, x: T, y: T)
    requires Reachable(roots, next, x) && y in next(x)
    ensures Reachable(roots, next, y)
  {
    var path :| IsPath(roots, next, path) && path[|path| - 1] == x;
    var longer := path + [y];
    forall i | 0 < i < |longer|
      ensures longer[i] in next(longer[i - 1])
    {
      if i < |path| {
        assert path[i] in next(path[i - 1]);
      }
    }
    assert IsPath(roots, next, longer);
  }

  /** A set that holds the roots and the successors of its members. */
  ghost predicate Closed<T(!new)>(roots: set<T>, next: T -> set<T>, s: set<T>) {
    roots <= s && forall x :: x in s ==> next(x) <= s
  }

  lemma {:induction false} PathKeeps<T(!new)>(roots: set<T>, next: T -> set<T>, holds: T -> bool, path: seq<T>)
    requires forall x :: x in roots ==> holds(x)
    requires forall x, y :: holds(x) && y in next(x) ==> holds(y)
    requires IsPath(roots, next, path)
    ensures holds(path[|path| - 1])
    decreases |path|
  {
    if |path| == 1 {
    } else {
      var shorter := path[..|path| - 1];
      assert forall i :: 0 <= i < |shorter| ==> shorter[i] == path[i];
      assert IsPath(roots, next, shorter);
      PathKeeps(roots, next, holds, shorter);
      assert path[|path| - 1] in next(path[|path| - 2]);
    }
  }

  /** What holds of the roots and passes along every step holds of everything reachable. */
  lemma ReachableKeeps<T(!new)>(roots: set<T>, next: T -> set<T>, holds: T -> bool, x: T)
    requires forall x :: x in roots ==> holds(x)
    requires forall x, y :: holds(x) && y in next(x) ==> holds(y)
    requires Reachable(roots, next, x)
    ensures holds(x)
  {
    var path :| IsPath(roots, next, path) && path[|path| - 1] == x;
    PathKeeps(roots, next, holds, path);
  }

  /** What is reachable lies in every closed set. */
  lemma ReachableIsLeast<T(!new)>(roots: set<T>, next: T -> set<T>, s: set<T>)
    requires Closed(roots, next, s)
    ensures forall x :: Reachable(roots, next, x) ==> x in s
  {
    forall x | Reachable(roots, next, x)
      ensures x in s
    {
      ReachableKeeps(roots, next, y => y in s, x);
    }
  }

  /** The state of a worklist: everything seen is reachable, and what is not yet expanded is pending. */
  ghost predicate Exploring<T(!new)>(roots: set<T>, next: T -> set<T>, visited: set<T>, pending: set<T>) {
    && (forall x :: x in visited + pending ==> Reachable(roots, next, x))
    && roots <= visited + pending
    && forall x :: x in visited ==> next(x) <= visited + pending
  }

  lemma ExploreStart<T(!new)>(roots: set<T>, next: T -> set<T>)
    ensures Exploring(roots, next, {}, roots)
  {
    forall x | x in roots
      ensures Reachable(roots, next, x)
    {
      RootReached(roots, next, x);
    }
  }

  lemma ExploreStep<T(!new)>(roots: set<T>, next: T -> set<T>, visited: set<T>, pending: set<T>, x: T, left: set<T>)
    requires Exploring(roots, next, visited, pending) && x in pending
    requires pending - {x} <= left <= pending
    ensures Exploring(roots, next, visited + {x}, left + next(x))
  {
    forall y | y in next(x)
      ensures Reachable(roots, next, y)
    {
      StepReached(roots, next, x, y);
    }
  }

  lemma ExploreSkip<T(!new)>(roots: set<T>, next: T -> set<T>, visited: set<T>, pending: set<T>, left: set<T>)
    requires Exploring(roots, next, visited, pending)
    requires left <= pending <= left + visited
    ensures Exploring(roots, next, visited, left)
  {
  }

  /** When nothing is pending, the visited items are exactly the reachable ones. */
  lemma ExploreEnd<T(!new)>(roots: set<T>, next: T -> set<T>, visited: set<T>)
    requires Exploring(roots, next, visited, {})
    ensures forall x :: x in visited <==> Reachable(roots, next, x)
  {
    assert visited + {} == visited;
    ReachableIsLeast(roots, next, visited);
  }
}
