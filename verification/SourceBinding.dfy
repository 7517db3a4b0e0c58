/** How `scripts/s12-closure.ts` binds a run to its source: two Git views, two source views and a candidate. */
module SourceBinding {
  import opened Wrappers

  /** One phase of Git probes; `executables` are the hashes of the executable of each probe. */
  datatype GitView = GitView(
    probesPassed: bool,
    head: Option<string>,
    repository: Option<string>,
    clean: bool,
    executables: seq<Option<string>>)

  datatype SourceView = SourceView(address: string, fingerprint: string)

  /** A content-verified candidate; `repository` is its canonical repository, none when that is rejected. */
  datatype Candidate = Candidate(repository: Option<string>, commit: string, fingerprint: string, digest: string)

  /** Everything the binding looks at. `coreAddressed` says the core evidence has a content address. */
  datatype Views = Views(
    before: GitView,
    after: GitView,
    sourceBefore: SourceView,
    sourceAfter: SourceView,
    candidate: Option<Candidate>,
    coreAddressed: bool)

  /** The source a bound run stands for. */
  datatype Subject = Subject(repository: string, commit: string, fingerprint: string, address: string)

  predicate IsValid(g: GitView) {
    g.probesPassed && g.head.Some? && g.clean && g.repository.Some?
  }

  predicate HeadStable(v: Views) {
    v.before.head.Some? && v.after.head.Some? && v.before.head == v.after.head
  }

  predicate RepositoryStable(v: Views) {
    v.before.repository.Some? && v.after.repository.Some? && v.before.repository == v.after.repository
  }

  function Present(hashes: seq<Option<string>>): (r: seq<string>)
    ensures |r| <= |hashes|
    ensures forall x :: x in r <==> Some(x) in hashes
  {
    if hashes == [] then [] else (if hashes[0].Some? then [hashes[0].value] else []) + Present(hashes[1..])
  }

  /** The hashes of every probe of both phases. */
  function Probes(v: Views): seq<Option<string>> {
    v.before.executables + v.after.executables
  }

  function Unique(xs: seq<string>): set<string> {
    set x | x in xs
  }

  predicate ExecutableStable(v: Views) {
    |Present(Probes(v))| == |Probes(v)| && |Unique(Present(Probes(v)))| == 1
  }

  function Executable(v: Views): Option<string> {
    if ExecutableStable(v) && Present(Probes(v)) != [] then Some(Present(Probes(v))[0]) else None
  }

  predicate GitStable(v: Views) {
    && IsValid(v.before) && IsValid(v.after)
    && HeadStable(v) && RepositoryStable(v) && ExecutableStable(v)
    && v.before.clean && v.after.clean
  }

  predicate SourceStable(v: Views) {
    v.sourceBefore.address == v.sourceAfter.address && v.sourceBefore.fingerprint == v.sourceAfter.fingerprint
  }

  /** The candidate that is still verified once its repository has been canonicalised. */
  function Verified(v: Views): Option<Candidate> {
    if v.candidate.Some? && v.candidate.value.repository.Some? then v.candidate else None
  }

  predicate RepositoryMatches(v: Views, c: Candidate) {
    RepositoryStable(v) && c.repository == v.after.repository
  }

  predicate CommitMatches(v: Views, c: Candidate) {
    HeadStable(v) && Some(c.commit) == v.after.head
  }

  predicate FingerprintMatches(v: Views, c: Candidate) {
    SourceStable(v) && c.fingerprint == v.sourceAfter.fingerprint
  }

  /** A verified candidate that a stable source contradicts. */
  predicate SourceMismatch(v: Views) {
    var c := Verified(v);
    c.Some? && GitStable(v)
    && (!RepositoryMatches(v, c.value) || !CommitMatches(v, c.value) || (SourceStable(v) && !FingerprintMatches(v, c.value)))
  }

  function EffectiveDigest(v: Views): Option<string> {
    if Verified(v).Some? then Some(Verified(v).value.digest) else None
  }

  function ObservedSubject(v: Views): Option<Subject> {
    if v.after.head.Some? && v.after.head.value != "" && v.after.repository.Some? && v.after.repository.value != ""
    then Some(Subject(v.after.repository.value, v.after.head.value, v.sourceAfter.fingerprint, v.sourceAfter.address))
    else None
  }

  /** `sourceBound`: every prerequisite holds. */
  predicate IsBound(v: Views) {
    var c := Verified(v);
    && GitStable(v) && HeadStable(v) && RepositoryStable(v) && v.before.clean && v.after.clean
    && SourceStable(v)
    && c.Some? && RepositoryMatches(v, c.value) && CommitMatches(v, c.value) && FingerprintMatches(v, c.value)
    && EffectiveDigest(v).Some? && v.coreAddressed && ObservedSubject(v).Some?
  }

  /** The subject a bound run records. */
  function BoundSubject(v: Views): Option<Subject> {
    if IsBound(v) then ObservedSubject(v) else None
  }

  lemma OneHash(xs: seq<string>, i: nat, j: nat)
    requires |Unique(xs)| == 1 && i < |xs| && j < |xs|
    ensures xs[i] == xs[j]
  {
    var a, b := xs[i], xs[j];
    assert {a, b} <= Unique(xs);
    if a != b {
      assert |{a, b}| == 2;
      SubsetSize({a, b}, Unique(xs));
    }
  }

  lemma SubsetSize<T>(small: set<T>, large: set<T>)
    requires small <= large
    ensures |small| <= |large|
  {
    assert large == small + (large - small);
  }

  lemma {:induction false} AllPresent(hashes: seq<Option<string>>, i: nat)
    requires |Present(hashes)| == |hashes| && i < |hashes|
    ensures hashes[i] == Some(Present(hashes)[i])
  {
    if i > 0 {
      AllPresent(hashes[1..], i - 1);
    }
  }

  /** A bound run had one commit, one repository, one source and one Git executable throughout, with a clean tree at
      both ends, and the candidate was made from exactly that. */
  lemma BoundMeans(v: Views, probe: nat)
    requires IsBound(v) && probe < |Probes(v)|
    ensures v.before.head == v.after.head == Some(v.candidate.value.commit)
    ensures v.before.repository == v.after.repository == v.candidate.value.repository
    ensures v.sourceBefore == v.sourceAfter
    ensures v.candidate.value.fingerprint == v.sourceAfter.fingerprint
    ensures v.before.clean && v.after.clean
    ensures BoundSubject(v) == Some(Subject(v.candidate.value.repository.value, v.candidate.value.commit,
                                            v.candidate.value.fingerprint, v.sourceAfter.address))
    ensures Executable(v).Some? && Probes(v)[probe] == Executable(v)
  {
    var present := Present(Probes(v));
    AllPresent(Probes(v), probe);
    OneHash(present, 0, probe);
  }

  // ---------------------------------------------------------------- what stable and bound mean

  /** Every probe ran the executable with this hash. */
  ghost predicate OnlyRan(hashes: seq<Option<string>>, hash: string) {
    forall i :: 0 <= i < |hashes| ==> hashes[i] == Some(hash)
  }

  /** Every probe of both phases passed on a clean tree, with one head, one repository and one Git executable. */
  ghost predicate WasStable(v: Views) {
    && v.before.probesPassed && v.after.probesPassed
    && v.before.clean && v.after.clean
    && v.before.head.Some? && v.after.head == v.before.head
    && v.before.repository.Some? && v.after.repository == v.before.repository
    && exists hash :: RanWith(v, hash)
  }

  /** There were probes, and all of them ran this executable. */
  ghost predicate RanWith(v: Views, hash: string) {
    (v.before.executables != [] || v.after.executables != []) && OnlyRan(v.before.executables, hash) && OnlyRan(v.after.executables, hash)
  }

  /** The candidate was made from what was observed. */
  ghost predicate IsMadeFrom(c: Candidate, v: Views) {
    c.repository == v.after.repository && Some(c.commit) == v.after.head && c.fingerprint == v.sourceAfter.fingerprint
  }

  /** A stable view of one named source, a candidate made from it, and addressed core evidence. */
  ghost predicate WasBound(v: Views) {
    && WasStable(v) && v.sourceBefore == v.sourceAfter
    && v.candidate.Some? && IsMadeFrom(v.candidate.value, v)
    && v.candidate.value.commit != "" && v.candidate.value.repository != Some("")
    && v.coreAddressed
  }

  lemma {:induction false} PresentWhenAll(hashes: seq<Option<string>>, hash: string)
    requires OnlyRan(hashes, hash)
    ensures |Present(hashes)| == |hashes|
    ensures forall x :: x in Present(hashes) ==> x == hash
  {
    if hashes != [] {
      var rest := hashes[1..];
      assert forall i :: 0 <= i < |rest| ==> rest[i] == hashes[i + 1];
      PresentWhenAll(rest, hash);
    }
  }

  lemma RanOnly(hashes: seq<Option<string>>)
    requires |Present(hashes)| == |hashes| && |Unique(Present(hashes))| == 1
    ensures hashes != [] && OnlyRan(hashes, Present(hashes)[0])
  {
    var present := Present(hashes);
    assert present == [] ==> Unique(present) == {};
    forall i | 0 <= i < |hashes|
      ensures hashes[i] == Some(present[0])
    {
      AllPresent(hashes, i);
      OneHash(present, 0, i);
    }
  }

  lemma BothRan(v: Views, hash: string)
    ensures OnlyRan(Probes(v), hash) && Probes(v) != [] <==> RanWith(v, hash)
  {
    var a, b := v.before.executables, v.after.executables;
    if OnlyRan(a + b, hash) {
      assert forall i :: 0 <= i < |a| ==> (a + b)[i] == a[i];
      assert forall i :: 0 <= i < |b| ==> (a + b)[|a| + i] == b[i];
    }
  }

  lemma OneExecutable(v: Views)
    ensures ExecutableStable(v) <==> exists hash :: RanWith(v, hash)
    ensures ExecutableStable(v) ==> Executable(v).Some? && RanWith(v, Executable(v).value)
  {
    if ExecutableStable(v) {
      RanOnly(Probes(v));
      BothRan(v, Present(Probes(v))[0]);
    }
    if hash :| RanWith(v, hash) {
      BothRan(v, hash);
      PresentWhenAll(Probes(v), hash);
      assert Present(Probes(v))[0] == hash;
      assert Unique(Present(Probes(v))) == {hash};
    }
  }

  /** The Git observation is stable exactly when every probe agrees. */
  lemma StableExactly(v: Views)
    ensures GitStable(v) <==> WasStable(v)
  {
    OneExecutable(v);
  }

  /** A run is bound exactly when everything it observed agrees, and then records exactly that. */
  lemma BoundExactly(v: Views)
    ensures IsBound(v) <==> WasBound(v)
    ensures BoundSubject(v) ==
            if WasBound(v)
            then Some(Subject(v.candidate.value.repository.value, v.candidate.value.commit,
                              v.candidate.value.fingerprint, v.sourceAfter.address))
            else None
  {
    StableExactly(v);
  }

  /** The candidate contradicts the source exactly when the Git observation is stable and one of the three differs;
      the fingerprint is not compared with a source that changed. */
  lemma MismatchExactly(v: Views)
    ensures SourceMismatch(v) <==>
            && WasStable(v) && v.candidate.Some? && v.candidate.value.repository.Some?
            && (|| v.candidate.value.repository != v.after.repository
                || Some(v.candidate.value.commit) != v.after.head
                || (v.sourceBefore == v.sourceAfter && v.candidate.value.fingerprint != v.sourceAfter.fingerprint))
  {
    StableExactly(v);
  }
}
