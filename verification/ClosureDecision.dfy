/** The release decision of `scripts/s12-closure.ts`: waivers, blockers, statuses, the final rechecks, and the
    completion receipt with the cross-field checks of its schema. */
module ClosureDecision {
  import opened Wrappers
  import opened Lists
  import opened Sorting
  import opened ClosureRequirements
  import opened SourceBinding
  import opened Texts
  import opened Utf8

  // ---------------------------------------------------------------- waivers

  /** The end of a day in milliseconds, none when the date does not parse, and the day a moment falls on. */
  datatype Calendar = Calendar(endOfDay: string -> Option<int>, dayOf: int -> string)

  datatype Approval = Approval(blockerId: string, owner: string, expiresOn: string)

  /** An external waiver artifact: what it targets, and its approvals. */
  datatype WaiverArtifact = WaiverArtifact(target: Subject, digest: string, metadataDigest: string, approvals: seq<Approval>)

  datatype Waiver =
    | Approved
    | NotSupplied | DigestUnavailable | DigestMismatch | InvalidExpiry | Expired
    | NonWaivable | NotNeeded

  /** A waiver approves only while its day lasts, and only the candidate it was issued for. */
  function WaiverObservation(
    calendar: Calendar, approval: Option<Approval>, artifactDigest: Option<string>, digest: Option<string>, now: int): (r: Waiver)
    ensures r == Approved <==>
            && approval.Some? && digest.Some? && digest.value != "" && artifactDigest == digest
            && InForce(calendar, approval.value, now)
    ensures r == NotSupplied <==> approval.None?
    ensures r == Expired ==> approval.Some? && exists end :: IsLastMoment(calendar, approval.value, end) && end < now
    ensures r == InvalidExpiry ==> approval.Some? && forall end :: !IsLastMoment(calendar, approval.value, end)
  {
    if approval.None? then NotSupplied
    else if digest.None? || digest.value == "" || artifactDigest.None? || artifactDigest.value == "" then DigestUnavailable
    else if artifactDigest != digest then DigestMismatch
    else
      var end := calendar.endOfDay(approval.value.expiresOn);
      if end.None? || calendar.dayOf(end.value) != approval.value.expiresOn then InvalidExpiry
      else if end.value < now then assert IsLastMoment(calendar, approval.value, end.value); Expired
      else Approved
  }

  /** The expiry is a real day, and this is its last moment. */
  ghost predicate IsLastMoment(calendar: Calendar, approval: Approval, end: int) {
    calendar.endOfDay(approval.expiresOn) == Some(end) && calendar.dayOf(end) == approval.expiresOn
  }

  /** The expiry is a real day, and that day is not over. */
  ghost predicate InForce(calendar: Calendar, approval: Approval, now: int) {
    var end := calendar.endOfDay(approval.expiresOn);
    end.Some? && calendar.dayOf(end.value) == approval.expiresOn && now <= end.value
  }

  /** The last approval of this blocker. */
  ghost predicate IsLastFor(approvals: seq<Approval>, id: string, a: Approval) {
    exists i :: 0 <= i < |approvals| && IsLastAt(approvals, id, i) && approvals[i] == a
  }

  ghost predicate IsLastAt(approvals: seq<Approval>, id: string, i: nat)
    requires i < |approvals|
  {
    approvals[i].blockerId == id && forall j :: i < j < |approvals| ==> approvals[j].blockerId != id
  }

  /** The lookup in a map made from the approvals: a later one replaces an earlier one of the same blocker. */
  function ApprovalFor(approvals: seq<Approval>, id: string): (r: Option<Approval>)
    ensures r.Some? ==> r.value in approvals && r.value.blockerId == id
    ensures r.Some? ==> IsLastFor(approvals, id, r.value)
    ensures r.None? ==> forall a :: a in approvals ==> a.blockerId != id
  {
    if approvals == [] then None
    else if approvals[|approvals| - 1].blockerId == id then
      assert IsLastAt(approvals, id, |approvals| - 1);
      Some(approvals[|approvals| - 1])
    else
      var r := ApprovalFor(approvals[..|approvals| - 1], id);
      EarlierApprovals(approvals, id, r);
      r
  }

  lemma EarlierApprovals(approvals: seq<Approval>, id: string, r: Option<Approval>)
    requires approvals != [] && approvals[|approvals| - 1].blockerId != id
    requires r.Some? ==> IsLastFor(approvals[..|approvals| - 1], id, r.value)
    requires r.None? ==> forall a :: a in approvals[..|approvals| - 1] ==> a.blockerId != id
    ensures r.Some? ==> IsLastFor(approvals, id, r.value)
    ensures r.None? ==> forall a :: a in approvals ==> a.blockerId != id
  {
    var earlier := approvals[..|approvals| - 1];
    assert approvals == earlier + [approvals[|approvals| - 1]];
    if r.Some? {
      var i :| 0 <= i < |earlier| && IsLastAt(earlier, id, i) && earlier[i] == r.value;
      forall j | i < j < |approvals|
        ensures approvals[j].blockerId != id
      {
        assert j < |earlier| ==> approvals[j] == earlier[j];
      }
      assert IsLastAt(approvals, id, i);
    }
  }

  lemma LastIsOne(approvals: seq<Approval>, id: string, a: Approval)
    requires IsLastFor(approvals, id, a)
    ensures ApprovalFor(approvals, id) == Some(a)
  {
    var i :| 0 <= i < |approvals| && IsLastAt(approvals, id, i) && approvals[i] == a;
    assert a in approvals;
    var found := ApprovalFor(approvals, id).value;
    var k :| 0 <= k < |approvals| && IsLastAt(approvals, id, k) && approvals[k] == found;
    assert i == k;
  }

  // ---------------------------------------------------------------- one run

  /** What a run has observed before it decides. */
  datatype Run = Run(
    views: Views,
    registry: Option<seq<Blocker>>,
    requirementIssues: bool,
    waiver: Option<WaiverArtifact>,
    compatResolved: bool,
    r015Resolved: bool,
    otherFailures: set<string>,
    calendar: Calendar,
    now: int)

  datatype Resolution = ByEvidence | ByWaiver | Blocking(reason: Waiver)

  function Approvals(run: Run): seq<Approval> {
    if run.waiver.Some? then run.waiver.value.approvals else []
  }

  function ArtifactDigest(run: Run): Option<string> {
    if run.waiver.Some? then Some(run.waiver.value.digest) else None
  }

  /** The digest waivers are held against: only a bound run has one. */
  function WaivableDigest(run: Run): Option<string> {
    if IsBound(run.views) then EffectiveDigest(run.views) else None
  }

  /** `dynamicResolution`. */
  predicate HasEvidence(run: Run, id: string) {
    || (id == SOURCE_BINDING && IsBound(run.views))
    || (id == COMPAT_BINARIES && run.compatResolved)
    || (id == R015_REVIEW && run.r015Resolved)
  }

  function WaiverFor(run: Run, id: string, now: int): Waiver {
    WaiverObservation(run.calendar, ApprovalFor(Approvals(run), id), ArtifactDigest(run), WaivableDigest(run), now)
  }

  function Resolve(run: Run, id: string): Resolution {
    var waiver := if id == SOURCE_BINDING then NonWaivable
                  else if HasEvidence(run, id) then NotNeeded
                  else WaiverFor(run, id, run.now);
    if HasEvidence(run, id) then ByEvidence else if waiver == Approved then ByWaiver else Blocking(waiver)
  }

  /** Stand-ins for the blockers of an invalid registry. */
  function Synthetic(ids: seq<string>): (r: seq<Blocker>)
    ensures |r| == |ids| && forall i :: 0 <= i < |r| ==> r[i].id == ids[i]
  {
    if ids == [] then []
    else [Blocker(ids[0], PolicyStatus(ids[0]), "invalid-registry", PolicyDisposition(ids[0]), PolicyRequirements(ids[0]),
                  ["a valid fail-closed blocker registry"])] + Synthetic(ids[1..])
  }

  /** The registry's blockers, or the fixed policy's when the registry is invalid. */
  function ObservedBlockers(registry: Option<seq<Blocker>>): seq<Blocker> {
    if registry.Some? then registry.value else Synthetic(PolicyIds())
  }

  function ObservedIds(run: Run): seq<string> {
    BlockerIds(ObservedBlockers(run.registry))
  }

  function IsOpen(run: Run): string -> bool {
    (id: string) => Resolve(run, id).Blocking?
  }

  function IsWaived(run: Run): string -> bool {
    (id: string) => Resolve(run, id) == ByWaiver
  }

  function OpenIds(run: Run): seq<string> {
    Sort(Where(IsOpen(run), ObservedIds(run)))
  }

  function WaivedIds(run: Run): seq<string> {
    Sort(Where(IsWaived(run), ObservedIds(run)))
  }

  function Expirations(approvals: seq<Approval>, ids: seq<string>): (r: seq<string>)
    ensures |r| <= |ids|
    ensures (forall i :: 0 <= i < |ids| ==> ApprovalFor(approvals, ids[i]).Some?) ==> |r| == |ids|
  {
    if ids == [] then []
    else
      var a := ApprovalFor(approvals, ids[0]);
      (if a.Some? then [a.value.expiresOn] else []) + Expirations(approvals, ids[1..])
  }

  function EarliestExpiry(run: Run): Option<string> {
    var sorted := Sort(Expirations(Approvals(run), WaivedIds(run)));
    if sorted == [] then None else Some(sorted[0])
  }

  /** A candidate whose repository is not canonical is an input error. */
  predicate CandidateRejected(v: Views) {
    v.candidate.Some? && v.candidate.value.repository.None?
  }

  function When(failed: bool, name: string): set<string> {
    if failed then {name} else {}
  }

  /** The names of everything that failed locally. */
  function LocalFailures(run: Run): set<string> {
    run.otherFailures
    + When(CandidateRejected(run.views), "candidate-binding-input")
    + When(SourceMismatch(run.views), "candidate-source-mismatch")
    + When(run.requirementIssues, "requirements-ledger")
    + When(!SourceStable(run.views), "source-changed-during-closure")
  }

  predicate LocalPass(run: Run) {
    LocalFailures(run) == {}
  }

  /** The source did not change, and neither its candidate nor its repository is contradicted. */
  ghost predicate SourceHeld(v: Views) {
    && v.sourceBefore == v.sourceAfter
    && (v.candidate.Some? ==> v.candidate.value.repository.Some?)
    && (v.candidate.Some? && WasStable(v) ==> IsMadeFrom(v.candidate.value, v))
  }

  // ---------------------------------------------------------------- what resolves a blocker

  /** An accepted waiver for the bound candidate holds an approval of this blocker that is in force. */
  ghost predicate ApprovedAt(run: Run, id: string, moment: int) {
    && run.waiver.Some? && WasBound(run.views)
    && run.waiver.value.digest == run.views.candidate.value.digest && run.waiver.value.digest != ""
    && exists a :: IsLastFor(run.waiver.value.approvals, id, a) && InForce(run.calendar, a, moment)
  }

  lemma ApprovedExactly(run: Run, id: string, moment: int)
    ensures WaiverFor(run, id, moment) == Approved <==> ApprovedAt(run, id, moment)
  {
    BoundExactly(run.views);
    if ApprovedAt(run, id, moment) {
      var a :| IsLastFor(run.waiver.value.approvals, id, a) && InForce(run.calendar, a, moment);
      LastIsOne(run.waiver.value.approvals, id, a);
    }
  }

  /** The three blockers a run can resolve by what it observed itself. */
  ghost predicate ProvedByEvidence(views: Views, compatResolved: bool, r015Resolved: bool, id: string) {
    || (id == "BLK-SOURCE-BINDING" && WasBound(views))
    || (id == "BLK-COMPAT-BINARIES" && compatResolved)
    || (id == "BLK-R015-REVIEW" && r015Resolved)
  }

  ghost predicate IsProved(run: Run, id: string) {
    ProvedByEvidence(run.views, run.compatResolved, run.r015Resolved, id)
  }

  lemma ProvedExactly(run: Run, id: string)
    ensures HasEvidence(run, id) <==> IsProved(run, id)
  {
    BoundExactly(run.views);
  }

  /** A blocker of the registry, or of the fixed policy when the registry is invalid. */
  ghost predicate IsObserved(registry: Option<seq<Blocker>>, id: string) {
    if registry.Some? then exists i :: 0 <= i < |registry.value| && registry.value[i].id == id else id in PolicyIds()
  }

  lemma InIds(blockers: seq<Blocker>, id: string)
    ensures id in BlockerIds(blockers) <==> exists i :: 0 <= i < |blockers| && blockers[i].id == id
  {
    var ids := BlockerIds(blockers);
    if id in ids {
      var i :| 0 <= i < |ids| && ids[i] == id;
      assert blockers[i].id == id;
    }
    if i :| 0 <= i < |blockers| && blockers[i].id == id {
      assert ids[i] == id;
    }
  }

  lemma {:induction false} SyntheticIds(ids: seq<string>)
    ensures BlockerIds(Synthetic(ids)) == ids
  {
    assert forall i :: 0 <= i < |ids| ==> BlockerIds(Synthetic(ids))[i] == ids[i];
  }

  lemma ObservedExactly(run: Run, id: string)
    ensures id in ObservedIds(run) <==> IsObserved(run.registry, id)
  {
    if run.registry.Some? {
      InIds(run.registry.value, id);
    } else {
      SyntheticIds(PolicyIds());
    }
  }

  /** A blocker stays open exactly when it is observed, evidence does not resolve it, and no approval does, which
      none can for the source binding; it is waived exactly when an approval resolves it and evidence does not. */
  lemma OpenExactly(run: Run, id: string)
    ensures id in OpenIds(run) <==>
            && IsObserved(run.registry, id) && !IsProved(run, id)
            && (id == "BLK-SOURCE-BINDING" || !ApprovedAt(run, id, run.now))
    ensures id in WaivedIds(run) <==>
            && IsObserved(run.registry, id) && !IsProved(run, id)
            && id != "BLK-SOURCE-BINDING" && ApprovedAt(run, id, run.now)
  {
    OpenMeans(run, id);
    ObservedExactly(run, id);
    ProvedExactly(run, id);
    ApprovedExactly(run, id, run.now);
  }

  /** A run passes locally exactly when nothing at all failed. */
  lemma PassesExactly(run: Run)
    ensures LocalPass(run) <==> run.otherFailures == {} && !run.requirementIssues && SourceHeld(run.views)
  {
    MismatchExactly(run.views);
    assert forall failed, name :: failed ==> name in When(failed, name);
  }

  predicate IsReady(run: Run) {
    LocalPass(run) && OpenIds(run) == []
  }

  datatype Status = LocalFail | ReleaseBlocked | ReleaseReady

  function StatusOf(run: Run): Status {
    if !LocalPass(run) then LocalFail else if OpenIds(run) != [] then ReleaseBlocked else ReleaseReady
  }

  // ---------------------------------------------------------------- the completion receipt

  /** The fields of a completion receipt that its schema relates to one another. */
  datatype Receipt = Receipt(
    status: Status,
    localPass: bool,
    ready: bool,
    eligible: bool,
    openBlockers: seq<string>,
    bound: bool,
    boundSubject: Option<Subject>,
    gitMatched: bool,
    digest: Option<string>,
    finalDigest: Option<string>,
    approvedIds: seq<string>,
    earliestExpiry: Option<string>)

  /** The schema of the completion receipt: sizes, identifiers, and the cross-field refinement. */
  ghost predicate SchemaAccepts(r: Receipt) {
    && |r.openBlockers| <= 8 && |r.approvedIds| <= 7
    && (forall id :: id in r.openBlockers ==> IsBlockerId(id))
    && (forall id :: id in r.approvedIds ==> IsBlockerId(id))
    && r.eligible == (r.localPass && r.ready)
    && r.status == (if !r.localPass then LocalFail else if r.ready then ReleaseReady else ReleaseBlocked)
    && r.bound == r.gitMatched && r.bound == r.boundSubject.Some?
    && r.finalDigest == r.digest
    && Distinct(r.openBlockers) && Sort(r.openBlockers) == r.openBlockers
    && Distinct(r.approvedIds) && Sort(r.approvedIds) == r.approvedIds
    && (forall id :: id in r.approvedIds ==> id !in r.openBlockers)
    && (r.approvedIds == [] <==> r.earliestExpiry.None?)
    && (r.eligible ==> r.bound && r.digest.Some? && r.openBlockers == [])
  }

  function MakeReceipt(run: Run, gitMatched: bool, finalDigest: Option<string>): Receipt {
    Receipt(StatusOf(run), LocalPass(run), IsReady(run), IsReady(run), OpenIds(run), IsBound(run.views), BoundSubject(run.views),
            gitMatched, EffectiveDigest(run.views), finalDigest, WaivedIds(run), EarliestExpiry(run))
  }

  // ---------------------------------------------------------------- what the parsed inputs guarantee

  /** What the schemas of the waiver artifact and the blocker registry guarantee, and what the run made of the
      registry: an invalid one is an issue of its own. */
  ghost predicate IsParsed(run: Run) {
    && (run.registry.None? ==> run.requirementIssues)
    && (forall id :: id in ObservedIds(run) ==> IsBlockerId(id))
    && (forall i, j :: 0 <= i < j < |Approvals(run)| ==> Approvals(run)[i].blockerId != Approvals(run)[j].blockerId)
    && |Approvals(run)| <= 7
  }

  // ---------------------------------------------------------------- lists of blockers

  lemma OpenMeans(run: Run, id: string)
    ensures id in OpenIds(run) <==> id in ObservedIds(run) && Resolve(run, id).Blocking?
    ensures id in WaivedIds(run) <==> id in ObservedIds(run) && Resolve(run, id) == ByWaiver
  {
    SortMembers(Where(IsOpen(run), ObservedIds(run)), id);
    SortMembers(Where(IsWaived(run), ObservedIds(run)), id);
  }

  lemma SortedOnce(xs: seq<string>)
    ensures Sort(Sort(xs)) == Sort(xs)
  {
    SortSorts(Itself, xs);
    SortedFixpoint(Itself, Sort(xs));
  }

  lemma WaivedHasApproval(run: Run, id: string)
    requires Resolve(run, id) == ByWaiver
    ensures ApprovalFor(Approvals(run), id).Some? && id != SOURCE_BINDING && IsBound(run.views)
    ensures WaiverFor(run, id, run.now) == Approved
  {
  }

  lemma ExpiryPresent(run: Run)
    ensures WaivedIds(run) == [] <==> EarliestExpiry(run).None?
  {
    var ids := WaivedIds(run);
    forall i | 0 <= i < |ids|
      ensures ApprovalFor(Approvals(run), ids[i]).Some?
    {
      assert ids[i] in ids;
      OpenMeans(run, ids[i]);
      WaivedHasApproval(run, ids[i]);
    }
  }

  // ---------------------------------------------------------------- accepting a waiver artifact

  /** The artifact was issued for this candidate and this source. */
  predicate Targets(w: WaiverArtifact, views: Views, metadataDigest: string) {
    && EffectiveDigest(views).Some? && EffectiveDigest(views).value != "" && w.digest == EffectiveDigest(views).value
    && w.metadataDigest == metadataDigest
    && Some(w.target.repository) == Verified(views).value.repository
    && Some(w.target.commit) == views.after.head
    && w.target.fingerprint == views.sourceAfter.fingerprint
  }

  /** The artifact names the digest of the candidate, its metadata and its repository, and the source observed last. */
  ghost predicate IsTargeted(w: WaiverArtifact, v: Views, metadataDigest: string) {
    && v.candidate.Some? && v.candidate.value.repository == Some(w.target.repository)
    && w.digest == v.candidate.value.digest && w.digest != ""
    && w.metadataDigest == metadataDigest
    && v.after.head == Some(w.target.commit) && v.sourceAfter.fingerprint == w.target.fingerprint
  }

  /** The first blocker of that identifier belongs to the owner who approves. */
  ghost predicate IsOwned(blockers: seq<Blocker>, a: Approval) {
    exists i :: 0 <= i < |blockers| && blockers[i].id == a.blockerId && blockers[i].owner == a.owner
                && forall k :: 0 <= k < i ==> blockers[k].id != a.blockerId
  }

  lemma {:induction false} OwnersMean(blockers: seq<Blocker>, a: Approval)
    ensures IsOwners(blockers, a) <==> IsOwned(blockers, a)
  {
    if blockers == [] {
    } else if blockers[0].id == a.blockerId {
      if blockers[0].owner == a.owner {
        assert IsOwned(blockers, a);
      }
    } else {
      var rest := blockers[1..];
      OwnersMean(rest, a);
      OwnedLater(blockers, a);
    }
  }

  lemma OwnedLater(blockers: seq<Blocker>, a: Approval)
    requires blockers != [] && blockers[0].id != a.blockerId
    ensures IsOwned(blockers[1..], a) <==> IsOwned(blockers, a)
  {
    var rest := blockers[1..];
    if i :| 0 <= i < |rest| && rest[i].id == a.blockerId && rest[i].owner == a.owner
            && forall k :: 0 <= k < i ==> rest[k].id != a.blockerId {
      forall k | 0 <= k < i + 1
        ensures blockers[k].id != a.blockerId
      {
        assert k > 0 ==> blockers[k] == rest[k - 1];
      }
      assert blockers[i + 1] == rest[i];
    }
    if i :| 0 <= i < |blockers| && blockers[i].id == a.blockerId && blockers[i].owner == a.owner
            && forall k :: 0 <= k < i ==> blockers[k].id != a.blockerId {
      assert rest[i - 1] == blockers[i];
      forall k | 0 <= k < i - 1
        ensures rest[k].id != a.blockerId
      {
        assert rest[k] == blockers[k + 1];
      }
    }
  }

  function FindBlocker(blockers: seq<Blocker>, id: string): (r: Option<Blocker>)
    ensures r.Some? ==> r.value in blockers && r.value.id == id
    ensures r.None? ==> forall b :: b in blockers ==> b.id != id
  {
    if blockers == [] then None else if blockers[0].id == id then Some(blockers[0]) else FindBlocker(blockers[1..], id)
  }

  predicate IsOwners(blockers: seq<Blocker>, a: Approval) {
    var b := FindBlocker(blockers, a.blockerId);
    b.Some? && b.value.owner == a.owner
  }

  method AcceptWaiver(w: WaiverArtifact, views: Views, metadataDigest: string, blockers: seq<Blocker>)
    returns (r: Option<WaiverArtifact>)
    ensures r.Some? <==> IsTargeted(w, views, metadataDigest) && forall a :: a in w.approvals ==> IsOwned(blockers, a)
    ensures r.Some? ==> r.value == w
  {
    forall a: Approval
      ensures IsOwners(blockers, a) <==> IsOwned(blockers, a)
    {
      OwnersMean(blockers, a);
    }
    if !Targets(w, views, metadataDigest) {
      return None;
    }
    for i := 0 to |w.approvals|
      invariant forall k :: 0 <= k < i ==> IsOwners(blockers, w.approvals[k])
    {
      if !IsOwners(blockers, w.approvals[i]) {
        assert w.approvals[i] in w.approvals;
        return None;
      }
    }
    r := Some(w);
  }

  // ---------------------------------------------------------------- the final rechecks

  datatype FinalGit = FinalGit(head: string, clean: bool, repository: Option<string>, executable: string)

  /** What is observed again just before completion. `candidate` is the digest of the candidate read again, when its
      metadata and payloads are still the same. */
  datatype Final = Final(
    candidate: Option<string>,
    source: SourceView,
    git: FinalGit,
    waiverUnchanged: bool,
    now: int)

  ghost predicate CandidateUnchanged(v: Views, f: Final) {
    v.candidate.Some? && v.candidate.value.repository.Some? ==> f.candidate == Some(v.candidate.value.digest)
  }

  /** The last Git view: a clean tree at the same head of the same repository, seen by the same executable. */
  ghost predicate GitUnchanged(v: Views, git: FinalGit) {
    && git.clean && Some(git.head) == v.after.head
    && git.repository.Some? && git.repository == v.after.repository
    && RanWith(v, git.executable)
  }

  /** Nothing the decision rests on has changed. */
  ghost predicate Unchanged(run: Run, f: Final) {
    && CandidateUnchanged(run.views, f)
    && f.source == run.views.sourceAfter
    && (WasBound(run.views) ==> GitUnchanged(run.views, f.git))
    && (run.waiver.Some? ==> f.waiverUnchanged)
    && AllApprovedAt(run, WaivedIds(run), f.now)
  }

  ghost predicate AllApprovedAt(run: Run, ids: seq<string>, moment: int) {
    forall i :: 0 <= i < |ids| ==> ApprovedAt(run, ids[i], moment)
  }

  /** One approved waiver again, with its blocker, at a later moment. */
  method RecheckWaiver(run: Run, id: string, now: int) returns (ok: bool)
    requires id in ObservedIds(run)
    ensures ok <==> ApprovedAt(run, id, now)
  {
    InObserved(run, id);
    ApprovedExactly(run, id, now);
    ok := FindBlocker(ObservedBlockers(run.registry), id).Some? && WaiverFor(run, id, now) == Approved;
  }

  method RecheckWaivers(run: Run, ids: seq<string>, now: int) returns (ok: bool)
    requires forall i :: 0 <= i < |ids| ==> ids[i] in ObservedIds(run)
    ensures ok <==> AllApprovedAt(run, ids, now)
  {
    for i := 0 to |ids|
      invariant forall k :: 0 <= k < i ==> ApprovedAt(run, ids[k], now)
    {
      var still := RecheckWaiver(run, ids[i], now);
      if !still {
        return false;
      }
    }
    ok := true;
  }

  lemma WaivedAreObserved(run: Run)
    ensures forall i :: 0 <= i < |WaivedIds(run)| ==> WaivedIds(run)[i] in ObservedIds(run)
  {
    var ids := WaivedIds(run);
    forall i | 0 <= i < |ids|
      ensures ids[i] in ObservedIds(run)
    {
      assert ids[i] in ids;
      OpenMeans(run, ids[i]);
    }
  }

  lemma InObserved(run: Run, id: string)
    ensures id in ObservedIds(run) <==> FindBlocker(ObservedBlockers(run.registry), id).Some?
  {
    var bs := ObservedBlockers(run.registry);
    if id in BlockerIds(bs) {
      var i :| 0 <= i < |bs| && BlockerIds(bs)[i] == id;
      assert bs[i] in bs;
    }
    var found := FindBlocker(bs, id);
    if found.Some? {
      var i :| 0 <= i < |bs| && bs[i] == found.value;
      assert BlockerIds(bs)[i] == id;
    }
  }

  predicate IdsAllowed(ids: seq<string>, most: nat) {
    |ids| <= most && forall i :: 0 <= i < |ids| ==> IsBlockerId(ids[i])
  }

  method UniqueAndSorted(ids: seq<string>) returns (ok: bool)
    ensures ok <==> Distinct(ids) && Sort(ids) == ids
  {
    DistinctCount(ids);
    TextDecidesList(ids, Sort(ids));
    ok := |Members(ids)| == |ids| && ListText(ids) == ListText(Sort(ids));
  }

  /** The schema's parse of a receipt. */
  method ParseReceipt(r: Receipt) returns (ok: bool)
    ensures ok <==> SchemaAccepts(r)
  {
    var openOk := UniqueAndSorted(r.openBlockers);
    var approvedOk := UniqueAndSorted(r.approvedIds);
    var expected := if !r.localPass then LocalFail else if r.ready then ReleaseReady else ReleaseBlocked;
    ok := IdsAllowed(r.openBlockers, 8) && IdsAllowed(r.approvedIds, 7)
       && r.eligible == (r.localPass && r.ready) && r.status == expected
       && r.bound == r.gitMatched && r.bound == r.boundSubject.Some?
       && r.finalDigest == r.digest
       && openOk && approvedOk
       && (forall id | id in r.approvedIds :: id !in r.openBlockers)
       && (|r.approvedIds| == 0) == r.earliestExpiry.None?
       && (!r.eligible || (r.bound && r.digest.Some? && |r.openBlockers| == 0));
  }

  lemma SameExecutable(v: Views, hash: string)
    requires Executable(v).Some?
    ensures Executable(v) == Some(hash) <==> RanWith(v, hash)
  {
    OneExecutable(v);
    var one := Executable(v).value;
    if RanWith(v, hash) {
      assert v.before.executables != [] ==> v.before.executables[0] == Some(hash);
      assert v.after.executables != [] ==> v.after.executables[0] == Some(hash);
      assert one == hash;
    }
  }

  /** The final Git view: not needed when unbound, and none when it differs from what was bound. */
  method ObserveFinalGit(run: Run, git: FinalGit) returns (r: Option<bool>)
    ensures r.Some? <==> WasBound(run.views) ==> GitUnchanged(run.views, git)
    ensures r.Some? ==> r.value == WasBound(run.views)
  {
    BoundExactly(run.views);
    OneExecutable(run.views);
    if !IsBound(run.views) {
      return Some(false);
    }
    if run.views.after.head.None? || run.views.after.repository.None? || Executable(run.views).None? {
      return None;
    }
    SameExecutable(run.views, git.executable);
    if !git.clean || Some(git.head) != run.views.after.head
      || git.repository.None? || git.repository != run.views.after.repository
      || Executable(run.views) != Some(git.executable) {
      return None;
    }
    r := Some(true);
  }

  method RecheckCandidate(v: Views, f: Final) returns (r: Option<Option<string>>)
    ensures r.Some? <==> CandidateUnchanged(v, f)
    ensures r.Some? ==> r.value == EffectiveDigest(v)
  {
    if Verified(v).Some? {
      return if f.candidate != EffectiveDigest(v) then None else Some(f.candidate);
    }
    r := Some(None);
  }

  /** Everything observed again: the digest and whether Git matched, or none when something changed. */
  method Recheck(run: Run, f: Final) returns (r: Option<(bool, Option<string>)>)
    ensures r.Some? <==> Unchanged(run, f)
    ensures r.Some? ==> r.value == (WasBound(run.views), EffectiveDigest(run.views))
  {
    var digest := RecheckCandidate(run.views, f);
    if digest == None || f.source != run.views.sourceAfter {
      return None;
    }
    var git := ObserveFinalGit(run, f.git);
    if git == None {
      return None;
    }
    if run.waiver.Some? && !f.waiverUnchanged {
      return None;
    }
    WaivedAreObserved(run);
    var still := RecheckWaivers(run, WaivedIds(run), f.now);
    r := if still then Some((git.value, digest.value)) else None;
  }

  /** The steps from the decision to the completion receipt. */
  method Complete(run: Run, f: Final) returns (r: Option<Receipt>)
    ensures r.Some? <==> Unchanged(run, f) && SchemaAccepts(MakeReceipt(run, IsBound(run.views), EffectiveDigest(run.views)))
    ensures r.Some? ==> r.value == MakeReceipt(run, IsBound(run.views), EffectiveDigest(run.views))
  {
    BoundExactly(run.views);
    var final := Recheck(run, f);
    if final == None {
      return None;
    }
    var receipt := MakeReceipt(run, final.value.0, final.value.1);
    var ok := ParseReceipt(receipt);
    r := if ok then Some(receipt) else None;
  }

  // ---------------------------------------------------------------- receipts are well formed

  lemma DistinctApprovals(run: Run)
    requires IsParsed(run) && Distinct(WaivedIds(run))
    ensures |WaivedIds(run)| <= 7
  {
    var ids, approvals := WaivedIds(run), Approvals(run);
    var named := set i | 0 <= i < |approvals| :: approvals[i].blockerId;
    forall id | id in ids
      ensures id in named
    {
      OpenMeans(run, id);
      WaivedHasApproval(run, id);
      var a := ApprovalFor(approvals, id).value;
      var i :| 0 <= i < |approvals| && approvals[i] == a;
    }
    DistinctCount(ids);
    assert Members(ids) <= named;
    SubsetSize(Members(ids), named);
    NamesBounded(approvals);
  }

  lemma {:induction false} NamesBounded(approvals: seq<Approval>)
    ensures |set i | 0 <= i < |approvals| :: approvals[i].blockerId| <= |approvals|
  {
    var names := set i | 0 <= i < |approvals| :: approvals[i].blockerId;
    if approvals == [] {
      assert names == {};
    } else {
      var shorter := approvals[..|approvals| - 1];
      var last := approvals[|approvals| - 1].blockerId;
      NamesBounded(shorter);
      var fewer := set i | 0 <= i < |shorter| :: shorter[i].blockerId;
      assert names == fewer + {last} by {
        assert forall i :: 0 <= i < |shorter| ==> approvals[i] == shorter[i];
      }
      assert |fewer + {last}| <= |fewer| + 1;
    }
  }

  lemma ListedApart(run: Run)
    requires IsParsed(run)
    ensures forall id :: id in OpenIds(run) ==> IsBlockerId(id)
    ensures forall id :: id in WaivedIds(run) ==> IsBlockerId(id) && id !in OpenIds(run)
  {
    forall id
      ensures id in OpenIds(run) ==> IsBlockerId(id)
      ensures id in WaivedIds(run) ==> IsBlockerId(id) && id !in OpenIds(run)
    {
      OpenMeans(run, id);
    }
  }

  /** The receipt of any run satisfies its schema exactly when no more than eight blockers are open and no blocker
      is listed twice. */
  lemma ReceiptAccepted(run: Run)
    requires IsParsed(run)
    requires IsReady(run) ==> IsBound(run.views)
    ensures SchemaAccepts(MakeReceipt(run, IsBound(run.views), EffectiveDigest(run.views))) <==>
            |OpenIds(run)| <= 8 && Distinct(OpenIds(run)) && Distinct(WaivedIds(run))
  {
    ExpiryPresent(run);
    SortedOnce(Where(IsOpen(run), ObservedIds(run)));
    SortedOnce(Where(IsWaived(run), ObservedIds(run)));
    ListedApart(run);
    if Distinct(WaivedIds(run)) {
      DistinctApprovals(run);
    }
  }

  // ---------------------------------------------------------------- safety

  /** The run took its registry and its ledger to the policy check. */
  ghost predicate Checked(run: Run, e: Evidence, known: set<string>, requirements: seq<Requirement>) {
    !run.requirementIssues ==> run.registry.Some? && IsComplete(e, known, requirements, run.registry.value)
  }

  lemma PolicyIsObserved(run: Run, e: Evidence, known: set<string>, requirements: seq<Requirement>, id: string)
    requires Checked(run, e, known, requirements) && !run.requirementIssues
    ensures id in ObservedIds(run) <==> id in PolicyIds()
  {
    var ids := BlockerIds(run.registry.value);
    assert id in ids <==> id in Members(ids);
    assert id in PolicyIds() <==> id in Members(PolicyIds());
  }

  lemma NothingOpen(run: Run, id: string)
    requires OpenIds(run) == [] && id in ObservedIds(run)
    ensures !Resolve(run, id).Blocking?
  {
    OpenMeans(run, id);
  }

  /** A release that is ready has its source bound by evidence. */
  lemma ReadyIsBound(run: Run, e: Evidence, known: set<string>, requirements: seq<Requirement>)
    requires Checked(run, e, known, requirements) && IsReady(run)
    ensures IsBound(run.views) && Resolve(run, SOURCE_BINDING) == ByEvidence
  {
    assert PolicyIds()[0] == SOURCE_BINDING;
    PolicyIsObserved(run, e, known, requirements, SOURCE_BINDING);
    NothingOpen(run, SOURCE_BINDING);
    SourceNeverWaived(run);
  }

  /** No waiver ever resolves the source binding. */
  lemma SourceNeverWaived(run: Run)
    ensures Resolve(run, SOURCE_BINDING) != ByWaiver
    ensures Resolve(run, SOURCE_BINDING) == ByEvidence <==> IsBound(run.views)
  {
    assert |SOURCE_BINDING| == 18 && |COMPAT_BINARIES| == 19 && |R015_REVIEW| == 15;
  }

  /** A resolved blocker: by exact evidence, or by an approval for this candidate in force at both evaluations. */
  ghost predicate IsResolved(run: Run, f: Final, id: string) {
    || IsProved(run, id)
    || (id != "BLK-SOURCE-BINDING" && ApprovedAt(run, id, run.now) && ApprovedAt(run, id, f.now))
  }

  lemma ResolvedWhenNotOpen(run: Run, f: Final, id: string)
    requires Unchanged(run, f) && IsObserved(run.registry, id) && id !in OpenIds(run)
    ensures IsResolved(run, f, id)
  {
    OpenExactly(run, id);
    if !IsProved(run, id) {
      var i :| 0 <= i < |WaivedIds(run)| && WaivedIds(run)[i] == id;
      assert ApprovedAt(run, WaivedIds(run)[i], f.now);
    }
  }

  /** Whenever a run completes as eligible, nothing failed locally, the ledger and the registry are complete under the
      policy, the source is bound by evidence, nothing the decision rests on changed, and every policy blocker is
      resolved. */
  lemma EligibleIsSafe(run: Run, f: Final, e: Evidence, known: set<string>, requirements: seq<Requirement>, receipt: Receipt, id: string)
    requires Checked(run, e, known, requirements) && Unchanged(run, f)
    requires receipt == MakeReceipt(run, IsBound(run.views), EffectiveDigest(run.views)) && receipt.eligible
    requires id in PolicyIds()
    ensures run.otherFailures == {} && !run.requirementIssues
    ensures run.registry.Some? && IsComplete(e, known, requirements, run.registry.value)
    ensures WasBound(run.views) && GitUnchanged(run.views, f.git) && f.source == run.views.sourceAfter
    ensures f.candidate == Some(run.views.candidate.value.digest)
    ensures run.waiver.Some? ==> f.waiverUnchanged
    ensures receipt.status == ReleaseReady && receipt.openBlockers == [] && SOURCE_BINDING !in receipt.approvedIds
    ensures receipt.bound && receipt.digest == f.candidate
    ensures IsResolved(run, f, id)
  {
    PassesExactly(run);
    ReadyIsBound(run, e, known, requirements);
    BoundExactly(run.views);
    OpenMeans(run, SOURCE_BINDING);
    PolicyIsObserved(run, e, known, requirements, id);
    ObservedExactly(run, id);
    ResolvedWhenNotOpen(run, f, id);
  }

  /** With a complete registry every run that reaches completion produces a receipt its schema accepts. */
  lemma CompleteRegistryAccepted(run: Run, e: Evidence, known: set<string>, requirements: seq<Requirement>)
    requires IsParsed(run) && Checked(run, e, known, requirements)
    requires Distinct(ObservedIds(run)) && |ObservedIds(run)| <= 8
    ensures SchemaAccepts(MakeReceipt(run, IsBound(run.views), EffectiveDigest(run.views)))
  {
    if IsReady(run) {
      ReadyIsBound(run, e, known, requirements);
    }
    ReceiptAccepted(run);
    FilteredDistinct(IsOpen(run), ObservedIds(run));
    FilteredDistinct(IsWaived(run), ObservedIds(run));
    SortedDistinct(Where(IsOpen(run), ObservedIds(run)));
    SortedDistinct(Where(IsWaived(run), ObservedIds(run)));
  }

  lemma {:induction false} FilteredDistinct(keep: string -> bool, xs: seq<string>)
    requires Distinct(xs)
    ensures Distinct(Where(keep, xs)) && |Where(keep, xs)| <= |xs|
  {
    if xs != [] {
      var rest := xs[1..];
      assert forall i :: 0 <= i < |rest| ==> rest[i] == xs[i + 1];
      FilteredDistinct(keep, rest);
      assert xs[0] !in rest;
    }
  }

  // ---------------------------------------------------------------- the whole closure

  /** The ledger's verdict: an unreadable registry is an issue of its own. */
  method CheckLedger(e: Evidence, known: set<string>, requirements: seq<Requirement>, registry: Option<seq<Blocker>>)
    returns (issues: bool)
    ensures issues <==> registry.None? || !IsComplete(e, known, requirements, registry.value)
  {
    if registry.None? {
      return true;
    }
    var found := ValidateRequirements(e, known, requirements, registry.value);
    issues := found != [];
  }

  /** Everything a closure decides on. */
  datatype Observations = Observations(
    evidence: Evidence,
    known: set<string>,
    requirements: seq<Requirement>,
    registry: Option<seq<Blocker>>,
    views: Views,
    artifact: Option<WaiverArtifact>,
    metadataDigest: string,
    compatResolved: bool,
    r015Resolved: bool,
    failures: set<string>,
    calendar: Calendar,
    now: int)

  ghost predicate LedgerComplete(o: Observations) {
    o.registry.Some? && IsComplete(o.evidence, o.known, o.requirements, o.registry.value)
  }

  /** The waiver artifact is for this candidate and source, and every approval is its blocker's owner's. */
  ghost predicate WaiverAccepted(o: Observations) {
    && o.artifact.Some? && IsTargeted(o.artifact.value, o.views, o.metadataDigest)
    && forall a :: a in o.artifact.value.approvals ==> IsOwned(ObservedBlockers(o.registry), a)
  }

  /** Nothing failed: no gate, no part of the ledger, no waiver artifact, and nothing about the source. */
  ghost predicate Passes(o: Observations) {
    && o.failures == {} && LedgerComplete(o)
    && (o.artifact.Some? ==> WaiverAccepted(o))
    && SourceHeld(o.views)
  }

  /** An accepted artifact, for a bound source, approves the blocker, and the approval's day is not over. */
  ghost predicate Approves(o: Observations, id: string, moment: int) {
    && WasBound(o.views) && WaiverAccepted(o)
    && exists a :: IsLastFor(o.artifact.value.approvals, id, a) && InForce(o.calendar, a, moment)
  }

  ghost predicate Proves(o: Observations, id: string) {
    ProvedByEvidence(o.views, o.compatResolved, o.r015Resolved, id)
  }

  ghost predicate StaysOpen(o: Observations, id: string) {
    && IsObserved(o.registry, id) && !Proves(o, id)
    && (id == "BLK-SOURCE-BINDING" || !Approves(o, id, o.now))
  }

  ghost predicate IsWaivedBy(o: Observations, id: string) {
    IsObserved(o.registry, id) && !Proves(o, id) && id != "BLK-SOURCE-BINDING" && Approves(o, id, o.now)
  }

  /** What a receipt lists: the blockers that stay open, and those an approval resolves, still in force at the end. */
  ghost predicate ListsBlockers(o: Observations, f: Final, r: Receipt) {
    && (forall id :: id in r.openBlockers <==> StaysOpen(o, id))
    && (forall id :: id in r.approvedIds <==> IsWaivedBy(o, id))
    && (forall id :: id in r.approvedIds ==> Approves(o, id, f.now))
  }

  /** The expiry a receipt names is that of an approval it lists, and none of those expires earlier. */
  ghost predicate ExpiresFirst(o: Observations, r: Receipt) {
    && (r.earliestExpiry.None? <==> r.approvedIds == [])
    && (r.earliestExpiry.Some? ==>
          && o.artifact.Some? && IsExpiryOf(o.artifact.value.approvals, r.approvedIds, r.earliestExpiry.value)
          && forall date :: IsExpiryOf(o.artifact.value.approvals, r.approvedIds, date) ==>
               NotAfter(r.earliestExpiry.value, date))
  }

  /** The date is that of the approval of one of the blockers. */
  ghost predicate IsExpiryOf(approvals: seq<Approval>, ids: seq<string>, date: string) {
    exists id, a :: id in ids && IsLastFor(approvals, id, a) && a.expiresOn == date
  }

  lemma {:induction false} ExpirationsMean(approvals: seq<Approval>, ids: seq<string>, date: string)
    ensures date in Expirations(approvals, ids) <==> IsExpiryOf(approvals, ids, date)
  {
    if ids != [] {
      ExpirationsMean(approvals, ids[1..], date);
      FirstExpiry(approvals, ids, date);
    }
  }

  lemma FirstExpiry(approvals: seq<Approval>, ids: seq<string>, date: string)
    requires ids != []
    ensures IsExpiryOf(approvals, ids, date) <==>
            || IsExpiryOf(approvals, ids[1..], date)
            || (ApprovalFor(approvals, ids[0]).Some? && ApprovalFor(approvals, ids[0]).value.expiresOn == date)
  {
    if id, a :| id in ids && IsLastFor(approvals, id, a) && a.expiresOn == date {
      LastIsOne(approvals, id, a);
      assert id == ids[0] || id in ids[1..];
    }
    if id, a :| id in ids[1..] && IsLastFor(approvals, id, a) && a.expiresOn == date {
      assert id in ids;
    }
  }

  lemma EarliestMeans(run: Run, date: string)
    requires EarliestExpiry(run).Some?
    ensures IsExpiryOf(Approvals(run), WaivedIds(run), EarliestExpiry(run).value)
    ensures IsExpiryOf(Approvals(run), WaivedIds(run), date) ==> NotAfter(EarliestExpiry(run).value, date)
  {
    var all := Expirations(Approvals(run), WaivedIds(run));
    SortSorts(Itself, all);
    SortMembers(all, date);
    SortMembers(all, Sort(all)[0]);
    ExpirationsMean(Approvals(run), WaivedIds(run), date);
    ExpirationsMean(Approvals(run), WaivedIds(run), Sort(all)[0]);
    if date in Sort(all) {
      var i :| 0 <= i < |Sort(all)| && Sort(all)[i] == date;
      OrderIsTotal(date, date);
      assert i > 0 ==> NotAfter(Itself(Sort(all)[0]), Itself(Sort(all)[i]));
    }
  }

  lemma ReceiptExpires(o: Observations, run: Run, r: Receipt)
    requires IsRunOf(o, run)
    requires r.approvedIds == WaivedIds(run) && r.earliestExpiry == EarliestExpiry(run)
    ensures ExpiresFirst(o, r)
  {
    ExpiryPresent(run);
    if EarliestExpiry(run).Some? {
      forall date
        ensures IsExpiryOf(Approvals(run), WaivedIds(run), EarliestExpiry(run).value)
        ensures IsExpiryOf(Approvals(run), WaivedIds(run), date) ==> NotAfter(EarliestExpiry(run).value, date)
      {
        EarliestMeans(run, date);
      }
      WaivedHasWaiver(run);
    }
  }

  lemma WaivedHasWaiver(run: Run)
    requires WaivedIds(run) != []
    ensures run.waiver.Some?
  {
    assert WaivedIds(run)[0] in WaivedIds(run);
    OpenExactly(run, WaivedIds(run)[0]);
  }

  /** What a receipt decides. */
  ghost predicate Decides(o: Observations, r: Receipt) {
    && (r.localPass <==> Passes(o))
    && (r.eligible <==> Passes(o) && forall id :: !StaysOpen(o, id))
    && r.ready == r.eligible
    && (r.status == LocalFail <==> !Passes(o))
    && (r.status == ReleaseReady <==> r.eligible)
  }

  /** What a receipt binds: the source, and the digest of a candidate that is still the one read first. */
  ghost predicate Binds(o: Observations, r: Receipt) {
    && (r.bound <==> WasBound(o.views)) && r.gitMatched == r.bound
    && (r.bound ==> r.boundSubject == Some(Subject(o.views.candidate.value.repository.value, o.views.candidate.value.commit,
                                                   o.views.candidate.value.fingerprint, o.views.sourceAfter.address)))
    && (!r.bound ==> r.boundSubject.None?)
    && r.digest == r.finalDigest
    && r.digest == if o.views.candidate.Some? && o.views.candidate.value.repository.Some?
                   then Some(o.views.candidate.value.digest) else None
  }

  /** Nothing the decision rests on is different at the end. */
  ghost predicate StillHolds(o: Observations, f: Final) {
    && CandidateUnchanged(o.views, f) && f.source == o.views.sourceAfter
    && (WasBound(o.views) ==> GitUnchanged(o.views, f.git))
    && (WaiverAccepted(o) ==> f.waiverUnchanged)
  }

  /** The run a closure decides on. */
  ghost predicate IsRunOf(o: Observations, run: Run) {
    && run.views == o.views && run.registry == o.registry && run.requirementIssues == !LedgerComplete(o)
    && run.waiver == (if WaiverAccepted(o) then o.artifact else None)
    && (run.otherFailures == {} <==> o.failures == {} && (o.artifact.Some? ==> WaiverAccepted(o)))
    && run.compatResolved == o.compatResolved && run.r015Resolved == o.r015Resolved
    && run.calendar == o.calendar && run.now == o.now
  }

  lemma RunPasses(o: Observations, run: Run)
    requires IsRunOf(o, run)
    ensures LocalPass(run) <==> Passes(o)
  {
    PassesExactly(run);
  }

  lemma RunApproves(o: Observations, run: Run, id: string, moment: int)
    requires IsRunOf(o, run)
    ensures ApprovedAt(run, id, moment) <==> Approves(o, id, moment)
  {
  }

  lemma RunLists(o: Observations, run: Run, id: string)
    requires IsRunOf(o, run)
    ensures id in OpenIds(run) <==> StaysOpen(o, id)
    ensures id in WaivedIds(run) <==> IsWaivedBy(o, id)
  {
    OpenExactly(run, id);
    RunApproves(o, run, id, run.now);
  }

  lemma ReceiptLists(o: Observations, f: Final, run: Run, r: Receipt)
    requires IsRunOf(o, run) && Unchanged(run, f)
    requires r.openBlockers == OpenIds(run) && r.approvedIds == WaivedIds(run)
    ensures ListsBlockers(o, f, r)
  {
    forall id
      ensures id in OpenIds(run) <==> StaysOpen(o, id)
      ensures id in WaivedIds(run) <==> IsWaivedBy(o, id)
      ensures id in WaivedIds(run) ==> Approves(o, id, f.now)
    {
      RunLists(o, run, id);
      RunApproves(o, run, id, f.now);
      if id in WaivedIds(run) {
        var i :| 0 <= i < |WaivedIds(run)| && WaivedIds(run)[i] == id;
        assert ApprovedAt(run, WaivedIds(run)[i], f.now);
      }
    }
  }

  lemma NothingStaysOpen(o: Observations, run: Run)
    requires IsRunOf(o, run)
    ensures OpenIds(run) == [] <==> forall id :: !StaysOpen(o, id)
  {
    forall id
      ensures id in OpenIds(run) <==> StaysOpen(o, id)
    {
      RunLists(o, run, id);
    }
    assert OpenIds(run) != [] ==> OpenIds(run)[0] in OpenIds(run);
  }

  lemma ReceiptDecides(o: Observations, run: Run, r: Receipt)
    requires IsRunOf(o, run)
    requires r == MakeReceipt(run, IsBound(run.views), EffectiveDigest(run.views))
    ensures Decides(o, r)
  {
    RunPasses(o, run);
    NothingStaysOpen(o, run);
  }

  lemma ReceiptBinds(o: Observations, run: Run, r: Receipt)
    requires IsRunOf(o, run)
    requires r == MakeReceipt(run, IsBound(run.views), EffectiveDigest(run.views))
    ensures Binds(o, r)
  {
    BoundExactly(run.views);
  }

  /** Under a complete ledger no receipt is rejected: exactly the eight policy blockers are observed. */
  lemma CompleteLedgerAccepted(o: Observations, run: Run)
    requires IsRunOf(o, run) && LedgerComplete(o) && IsParsed(run)
    ensures SchemaAccepts(MakeReceipt(run, IsBound(run.views), EffectiveDigest(run.views)))
  {
    PolicyIdsDistinct();
    SameSizeWhenSame(BlockerIds(o.registry.value), PolicyIds());
    CompleteRegistryAccepted(run, o.evidence, o.known, o.requirements);
  }

  /** The run's waiver, and the name of the failure when an artifact was not accepted. */
  method TakeWaiver(o: Observations) returns (waiver: Option<WaiverArtifact>, failures: set<string>)
    ensures waiver == if WaiverAccepted(o) then o.artifact else None
    ensures failures == o.failures + (if o.artifact.Some? && !WaiverAccepted(o) then {"waiver-binding-input"} else {})
  {
    waiver, failures := None, o.failures;
    if o.artifact.Some? {
      waiver := AcceptWaiver(o.artifact.value, o.views, o.metadataDigest, ObservedBlockers(o.registry));
      if waiver == None {
        failures := failures + {"waiver-binding-input"};
      }
    }
  }

  method Decide(o: Observations) returns (run: Run)
    ensures IsRunOf(o, run)
  {
    var issues := CheckLedger(o.evidence, o.known, o.requirements, o.registry);
    var waiver, failures := TakeWaiver(o);
    run := Run(o.views, o.registry, issues, waiver, o.compatResolved, o.r015Resolved, failures, o.calendar, o.now);
    assert o.artifact.Some? && !WaiverAccepted(o) ==> "waiver-binding-input" in failures;
  }

  /** A closure from its observations to its receipt, with the run it decided on: none when something changed before
      the end or the schema rejects the receipt, and otherwise exactly what the observations call for. */
  method CloseRelease(o: Observations, f: Final) returns (r: Option<Receipt>, run: Run)
    ensures IsRunOf(o, run)
    ensures r.Some? <==> Unchanged(run, f) && SchemaAccepts(MakeReceipt(run, IsBound(o.views), EffectiveDigest(o.views)))
    ensures r.Some? ==> Decides(o, r.value) && ListsBlockers(o, f, r.value) && Binds(o, r.value) && ExpiresFirst(o, r.value)
    ensures r.Some? ==> SchemaAccepts(r.value) && StillHolds(o, f)
    ensures LedgerComplete(o) && IsParsed(run) && Unchanged(run, f) ==> r.Some?
  {
    run := Decide(o);
    if LedgerComplete(o) && IsParsed(run) {
      CompleteLedgerAccepted(o, run);
    }
    r := Complete(run, f);
    if r.Some? {
      ReceiptDecides(o, run, r.value);
      ReceiptLists(o, f, run, r.value);
      ReceiptBinds(o, run, r.value);
      ReceiptExpires(o, run, r.value);
    }
  }
}
