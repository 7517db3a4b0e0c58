/** `validateRequirements` of `scripts/s12-closure.ts`: the requirement ledger and the blocker registry against the
    fixed release policy. */
module ClosureRequirements {
  import opened Sorting
  import opened Texts

  datatype Requirement = Requirement(id: string, owner: string, state: string, evidence: string)

  datatype Blocker = Blocker(
    id: string,
    status: string,
    owner: string,
    disposition: string,
    affectedRequirements: seq<string>,
    requiredEvidence: seq<string>)

  /** What the ledger's evidence text says: the evidence identifiers it mentions, and whether it links a local file. */
  datatype Evidence = Evidence(ids: string -> seq<string>, hasLocalLink: string -> bool)

  const LOCALLY_VALIDATED := "validado-localmente"

  predicate IsState(state: string) {
    state in [LOCALLY_VALIDATED, "parcial", "prova-pendente", "bloqueado-externamente"]
  }

  // ---------------------------------------------------------------- the 79 identifiers

  function Digit(n: int): char
    requires 0 <= n < 10
  {
    ('0' as int + n) as char
  }

  function RequirementId(n: int): string
    requires 0 <= n < 1000
  {
    ['R', Digit(n / 100), Digit(n / 10 % 10), Digit(n % 10)]
  }

  lemma ThreeDigits(n: int)
    requires 0 <= n < 1000
    ensures n == n / 100 * 100 + n / 10 % 10 * 10 + n % 10
  {
  }

  lemma RequirementIdInjective(m: int, n: int)
    requires 0 <= m < 1000 && 0 <= n < 1000
    ensures RequirementId(m) == RequirementId(n) ==> m == n
  {
    var a, b := RequirementId(m), RequirementId(n);
    assert a == b ==> a[1] == b[1] && a[2] == b[2] && a[3] == b[3];
    ThreeDigits(m);
    ThreeDigits(n);
  }

  /** An identifier is the letter and the number in three decimal digits. */
  lemma RequirementIdReads(n: int)
    requires 0 <= n < 1000
    ensures var id := RequirementId(n);
            && |id| == 4 && id[0] == 'R' && (forall i :: 1 <= i < 4 ==> '0' <= id[i] <= '9')
            && n == (id[1] as int - 48) * 100 + (id[2] as int - 48) * 10 + (id[3] as int - 48)
  {
    ThreeDigits(n);
  }

  const COUNT := 79

  /** `R001` up to the given number. */
  function IdsUpTo(n: nat): (r: seq<string>)
    requires n <= COUNT
    ensures |r| == n
    ensures forall i :: 0 <= i < n ==> r[i] == RequirementId(i + 1)
  {
    if n == 0 then [] else IdsUpTo(n - 1) + [RequirementId(n)]
  }

  predicate IsRequirementId(id: string) {
    exists n :: 1 <= n <= COUNT && RequirementId(n) == id
  }

  lemma InIds(ids: seq<string>, id: string)
    requires ids == IdsUpTo(COUNT)
    ensures id in ids <==> IsRequirementId(id)
  {
    if id in ids {
      var i :| 0 <= i < |ids| && ids[i] == id;
      assert RequirementId(i + 1) == id;
    }
    if IsRequirementId(id) {
      var n :| 1 <= n <= COUNT && RequirementId(n) == id;
      assert ids[n - 1] == id;
    }
  }

  lemma IdsAreDistinct(n: nat)
    requires n <= COUNT
    ensures Distinct(IdsUpTo(n))
  {
    var ids := IdsUpTo(n);
    forall i, j | 0 <= i < j < n
      ensures ids[i] != ids[j]
    {
      assert ids[i] == RequirementId(i + 1) && ids[j] == RequirementId(j + 1);
      RequirementIdInjective(i + 1, j + 1);
    }
  }

  // ---------------------------------------------------------------- the fixed policy

  const SOURCE_BINDING := "BLK-SOURCE-BINDING"
  const COMPAT_BINARIES := "BLK-COMPAT-BINARIES"
  const R015_REVIEW := "BLK-R015-REVIEW"

  function PolicyIds(): seq<string> {
    [SOURCE_BINDING, "BLK-AUTH-REAL", R015_REVIEW, "BLK-R063-FORGE", "BLK-MULTIPLATFORM", "BLK-SANDBOX-EXT",
     "BLK-RELEASE", COMPAT_BINARIES]
  }

  function PolicyRequirements(id: string): seq<string> {
    if id == SOURCE_BINDING || id == "BLK-RELEASE" then ["R003", "R055", "R066", "R069", "R070"]
    else if id == "BLK-AUTH-REAL" then ["R007", "R008"]
    else if id == R015_REVIEW then ["R015"]
    else if id == "BLK-R063-FORGE" then ["R063"]
    else if id == "BLK-MULTIPLATFORM" then ["R044", "R055", "R070"]
    else if id == "BLK-SANDBOX-EXT" then ["R064"]
    else if id == COMPAT_BINARIES then ["R017", "R036", "R068"]
    else []
  }

  function PolicyStatus(id: string): string {
    if id == COMPAT_BINARIES then "conditional" else "open"
  }

  function PolicyDisposition(id: string): string {
    if id == COMPAT_BINARIES then "block-release-when-inputs-absent-or-mismatched" else "block-release"
  }

  predicate IsBlockerIdChar(c: char) {
    'A' <= c <= 'Z' || '0' <= c <= '9' || c == '-'
  }

  predicate IsBlockerId(id: string) {
    |id| > 4 && id[..4] == "BLK-" && forall i :: 4 <= i < |id| ==> IsBlockerIdChar(id[i])
  }

  /** A blocker identifier is "BLK-" and at least one capital letter, digit or hyphen. */
  lemma BlockerIdExactly(id: string)
    ensures IsBlockerId(id) <==>
            && |id| > 4 && id[0] == 'B' && id[1] == 'L' && id[2] == 'K' && id[3] == '-'
            && forall i :: 4 <= i < |id| ==> 65 <= id[i] as int <= 90 || 48 <= id[i] as int <= 57 || id[i] as int == 45
  {
    if |id| > 4 {
      assert id[..4] == "BLK-" <==> id[0] == 'B' && id[1] == 'L' && id[2] == 'K' && id[3] == '-' by {
        assert id[..4] == [id[0], id[1], id[2], id[3]];
      }
    }
  }

  // ---------------------------------------------------------------- what a clean ledger is

  function Ids(requirements: seq<Requirement>): (r: seq<string>)
    ensures |r| == |requirements| && forall i :: 0 <= i < |r| ==> r[i] == requirements[i].id
  {
    if requirements == [] then [] else [requirements[0].id] + Ids(requirements[1..])
  }

  function BlockerIds(blockers: seq<Blocker>): (r: seq<string>)
    ensures |r| == |blockers| && forall i :: 0 <= i < |r| ==> r[i] == blockers[i].id
  {
    if blockers == [] then [] else [blockers[0].id] + BlockerIds(blockers[1..])
  }

  /** A requirement in one of the four states, with an owner and evidence, whose cited evidence is catalogued; one
      that is locally validated cites some, or links a file. */
  ghost predicate IsClean(e: Evidence, known: set<string>, r: Requirement) {
    && (r.state == "validado-localmente" || r.state == "parcial" || r.state == "prova-pendente"
        || r.state == "bloqueado-externamente")
    && HasText(r.owner) && HasText(r.evidence)
    && (forall id :: id in e.ids(r.evidence) ==> id in known)
    && (r.state == "validado-localmente" ==> e.ids(r.evidence) != [] || e.hasLocalLink(r.evidence))
  }

  ghost predicate RequirementsKnown(ids: seq<string>) {
    forall i :: 0 <= i < |ids| ==> IsRequirementId(ids[i])
  }

  /** A blocker with an owner, evidence and known requirements; a policy one has exactly the policy's. */
  ghost predicate IsSound(policy: seq<string>, b: Blocker) {
    && IsBlockerId(b.id) && HasText(b.owner) && HasText(b.disposition) && b.requiredEvidence != []
    && Distinct(b.affectedRequirements) && Distinct(b.requiredEvidence)
    && RequirementsKnown(b.affectedRequirements)
    && (b.id in policy ==> FollowsPolicy(b))
  }

  ghost predicate FollowsPolicy(b: Blocker) {
    && Sort(b.affectedRequirements) == Sort(PolicyRequirements(b.id))
    && b.status == PolicyStatus(b.id) && b.disposition == PolicyDisposition(b.id)
  }

  ghost predicate AreSound(policy: seq<string>, blockers: seq<Blocker>, n: nat) {
    forall i :: 0 <= i < n <= |blockers| ==> IsSound(policy, blockers[i])
  }

  ghost predicate IsBlocked(blockers: seq<Blocker>, id: string) {
    exists i :: 0 <= i < |blockers| && id in blockers[i].affectedRequirements
  }

  /** Every requirement exactly once and clean; every policy blocker exactly once, no other, and sound; every
      requirement that is not locally validated held back by a blocker. */
  ghost predicate IsComplete(e: Evidence, known: set<string>, requirements: seq<Requirement>, blockers: seq<Blocker>) {
    && Distinct(Ids(requirements)) && Members(Ids(requirements)) == Members(IdsUpTo(COUNT))
    && (forall i :: 0 <= i < |requirements| ==> IsClean(e, known, requirements[i]))
    && Distinct(BlockerIds(blockers)) && Members(BlockerIds(blockers)) == Members(PolicyIds())
    && AreSound(PolicyIds(), blockers, |blockers|)
    && forall i :: 0 <= i < |requirements| && requirements[i].state != "validado-localmente" ==>
         IsBlocked(blockers, requirements[i].id)
  }

  // ---------------------------------------------------------------- the checks

  datatype Problem =
    | DuplicateIds | MissingRequirement | UnexpectedRequirement | UnknownState | NoOwner | NoEvidence
    | UnknownEvidence | NoLocalEvidence | InvalidId | DuplicateBlocker | NoDisposition | RepeatedRequirement
    | RepeatedEvidence | UnknownRequirement | OtherRequirements | OtherStatus | OtherDisposition
    | OtherBlockers | NotBlocked

  datatype Issue = Issue(subject: string, problem: Problem)

  /** One issue for each of the names that is not among the others. */
  method CheckAmong(xs: seq<string>, ys: seq<string>, problem: Problem) returns (issues: seq<Issue>)
    ensures issues == [] <==> forall k :: 0 <= k < |xs| ==> xs[k] in ys
  {
    issues := [];
    for i := 0 to |xs|
      invariant issues == [] <==> forall k :: 0 <= k < i ==> xs[k] in ys
    {
      if xs[i] !in ys {
        issues := issues + [Issue(xs[i], problem)];
      }
    }
  }

  method CheckIds(ids: seq<string>, expected: seq<string>) returns (issues: seq<Issue>)
    ensures issues == [] <==> Distinct(ids) && Members(ids) == Members(expected)
  {
    issues := [];
    DistinctCount(ids);
    if |Members(ids)| != |ids| {
      issues := issues + [Issue("", DuplicateIds)];
    }
    var missing := CheckAmong(expected, ids, MissingRequirement);
    var unexpected := CheckAmong(ids, expected, UnexpectedRequirement);
    issues := issues + missing + unexpected;
    SameMembers(ids, expected);
  }

  lemma SameMembers(xs: seq<string>, ys: seq<string>)
    ensures Members(xs) == Members(ys) <==>
            (forall k :: 0 <= k < |xs| ==> xs[k] in ys) && (forall k :: 0 <= k < |ys| ==> ys[k] in xs)
  {
    if Members(xs) == Members(ys) {
      assert forall k :: 0 <= k < |xs| ==> xs[k] in Members(xs);
      assert forall k :: 0 <= k < |ys| ==> ys[k] in Members(ys);
    }
  }

  method CheckRequirement(e: Evidence, known: set<string>, r: Requirement) returns (issues: seq<Issue>)
    ensures issues == [] <==> IsClean(e, known, r)
  {
    TrimKeepsText(r.owner);
    TrimKeepsText(r.evidence);
    issues := [];
    if !IsState(r.state) {
      issues := issues + [Issue(r.id, UnknownState)];
    }
    if Trim(r.owner) == "" {
      issues := issues + [Issue(r.id, NoOwner)];
    }
    if Trim(r.evidence) == "" {
      issues := issues + [Issue(r.id, NoEvidence)];
    }
    var ids := e.ids(r.evidence);
    ghost var before := issues;
    for i := 0 to |ids|
      invariant issues == [] <==> before == [] && forall k :: 0 <= k < i ==> ids[k] in known
    {
      if ids[i] !in known {
        issues := issues + [Issue(r.id, UnknownEvidence)];
      }
    }
    if r.state == LOCALLY_VALIDATED && ids == [] && !e.hasLocalLink(r.evidence) {
      issues := issues + [Issue(r.id, NoLocalEvidence)];
    }
  }

  method CheckPolicy(b: Blocker) returns (issues: seq<Issue>)
    ensures issues == [] <==> FollowsPolicy(b)
  {
    issues := [];
    TextDecidesList(Sort(b.affectedRequirements), Sort(PolicyRequirements(b.id)));
    if ListText(Sort(b.affectedRequirements)) != ListText(Sort(PolicyRequirements(b.id))) {
      issues := issues + [Issue(b.id, OtherRequirements)];
    }
    if b.status != PolicyStatus(b.id) {
      issues := issues + [Issue(b.id, OtherStatus)];
    }
    if b.disposition != PolicyDisposition(b.id) {
      issues := issues + [Issue(b.id, OtherDisposition)];
    }
  }

  lemma KnownIsAmong(affected: seq<string>, ids: seq<string>)
    requires ids == IdsUpTo(COUNT)
    ensures RequirementsKnown(affected) <==> forall k :: 0 <= k < |affected| ==> affected[k] in ids
  {
    forall k | 0 <= k < |affected|
      ensures IsRequirementId(affected[k]) <==> affected[k] in ids
    {
      InIds(ids, affected[k]);
    }
  }

  method CheckAffected(affected: seq<string>) returns (issues: seq<Issue>)
    ensures issues == [] <==> RequirementsKnown(affected)
  {
    var expected := IdsUpTo(COUNT);
    KnownIsAmong(affected, expected);
    issues := CheckAmong(affected, expected, UnknownRequirement);
  }

  method CheckBlocker(policy: seq<string>, b: Blocker) returns (issues: seq<Issue>)
    ensures issues == [] <==> IsSound(policy, b)
  {
    TrimKeepsText(b.owner);
    TrimKeepsText(b.disposition);
    issues := [];
    if !IsBlockerId(b.id) {
      issues := issues + [Issue(b.id, InvalidId)];
    }
    if Trim(b.owner) == "" {
      issues := issues + [Issue(b.id, NoOwner)];
    }
    if Trim(b.disposition) == "" {
      issues := issues + [Issue(b.id, NoDisposition)];
    }
    if |b.requiredEvidence| == 0 {
      issues := issues + [Issue(b.id, NoEvidence)];
    }
    DistinctCount(b.affectedRequirements);
    if |Members(b.affectedRequirements)| != |b.affectedRequirements| {
      issues := issues + [Issue(b.id, RepeatedRequirement)];
    }
    DistinctCount(b.requiredEvidence);
    if |Members(b.requiredEvidence)| != |b.requiredEvidence| {
      issues := issues + [Issue(b.id, RepeatedEvidence)];
    }
    var unknown := CheckAffected(b.affectedRequirements);
    issues := issues + unknown;
    if b.id in policy {
      var more := CheckPolicy(b);
      issues := issues + more;
    }
  }

  lemma SeenNext(before: seq<string>, seen: seq<string>, id: string)
    requires Distinct(seen) && Members(seen) == Members(before)
    ensures Distinct(before + [id]) <==> Distinct(before) && id !in seen
    ensures id in seen ==> Members(seen) == Members(before + [id])
    ensures id !in seen ==> Distinct(seen + [id]) && Members(seen + [id]) == Members(before + [id])
  {
    DistinctSnoc(before, id);
    DistinctSnoc(seen, id);
    assert id in seen <==> id in Members(seen);
    assert id in before <==> id in Members(before);
  }

  ghost predicate AllGood(good: Blocker -> bool, blockers: seq<Blocker>, n: nat) {
    forall i :: 0 <= i < n <= |blockers| ==> good(blockers[i])
  }

  ghost predicate Checking(good: Blocker -> bool, blockers: seq<Blocker>, ids: seq<string>, i: nat, seen: seq<string>, clean: bool)
    requires i <= |ids|
  {
    && Distinct(seen) && Members(seen) == Members(ids[..i])
    && (clean <==> Distinct(ids[..i]) && AllGood(good, blockers, i))
  }

  lemma CheckingNext(good: Blocker -> bool, blockers: seq<Blocker>, ids: seq<string>, i: nat, seen: seq<string>, clean: bool)
    requires i < |ids| == |blockers| && Checking(good, blockers, ids, i, seen, clean)
    ensures ids[i] in seen ==> Checking(good, blockers, ids, i + 1, seen, false)
    ensures ids[i] !in seen ==> Checking(good, blockers, ids, i + 1, seen + [ids[i]], clean && good(blockers[i]))
  {
    SeenNext(ids[..i], seen, ids[i]);
    assert ids[..i + 1] == ids[..i] + [ids[i]];
    assert AllGood(good, blockers, i + 1) <==> AllGood(good, blockers, i) && good(blockers[i]);
  }

  lemma CheckingEnd(good: Blocker -> bool, blockers: seq<Blocker>, ids: seq<string>, seen: seq<string>, clean: bool)
    requires Checking(good, blockers, ids, |ids|, seen, clean) && |ids| == |blockers|
    ensures Distinct(seen) && Members(seen) == Members(ids)
    ensures clean <==> Distinct(ids) && AllGood(good, blockers, |blockers|)
  {
    assert ids[..|ids|] == ids;
  }

  method CheckOne(policy: seq<string>, b: Blocker, ghost good: Blocker -> bool) returns (issues: seq<Issue>)
    requires good(b) <==> IsSound(policy, b)
    ensures issues == [] <==> good(b)
  {
    issues := CheckBlocker(policy, b);
  }

  /** The blockers one by one; `seen` are their distinct identifiers, and `good` says which blockers are sound. */
  method ScanBlockers(policy: seq<string>, blockers: seq<Blocker>, ghost good: Blocker -> bool)
    returns (issues: seq<Issue>, seen: seq<string>)
    requires forall b :: good(b) <==> IsSound(policy, b)
    ensures Distinct(seen) && Members(seen) == Members(BlockerIds(blockers))
    ensures issues == [] <==> Distinct(BlockerIds(blockers)) && AllGood(good, blockers, |blockers|)
  {
    issues, seen := [], [];
    ghost var ids := BlockerIds(blockers);
    for i := 0 to |blockers|
      invariant Checking(good, blockers, ids, i, seen, issues == [])
    {
      var id := blockers[i].id;
      var more := CheckOne(policy, blockers[i], good);
      CheckingNext(good, blockers, ids, i, seen, issues == []);
      if id in seen {
        issues := issues + [Issue(id, DuplicateBlocker)];
      } else {
        seen := seen + [id];
      }
      issues := issues + more;
    }
    CheckingEnd(good, blockers, ids, seen, issues == []);
  }

  /** The blockers are sound, and they are the policy's. */
  method CheckBlockers(policy: seq<string>, blockers: seq<Blocker>) returns (issues: seq<Issue>)
    requires Distinct(policy)
    ensures issues == [] <==>
            && Distinct(BlockerIds(blockers)) && Members(BlockerIds(blockers)) == Members(policy)
            && AreSound(policy, blockers, |blockers|)
  {
    var seen;
    ghost var good := (b: Blocker) => IsSound(policy, b);
    issues, seen := ScanBlockers(policy, blockers, good);
    assert AllGood(good, blockers, |blockers|) <==> AreSound(policy, blockers, |blockers|);
    TextDecidesList(Sort(seen), Sort(policy));
    SortOfSameSet(seen, policy);
    if ListText(Sort(seen)) != ListText(Sort(policy)) {
      issues := issues + [Issue("", OtherBlockers)];
    }
  }

  lemma DistinctSnoc(xs: seq<string>, x: string)
    ensures Distinct(xs + [x]) <==> Distinct(xs) && x !in xs
    ensures Members(xs + [x]) == Members(xs) + {x}
  {
    var more := xs + [x];
    if Distinct(more) {
      forall i, j | 0 <= i < j < |xs|
        ensures xs[i] != xs[j]
      {
        assert more[i] != more[j];
      }
      forall i | 0 <= i < |xs|
        ensures xs[i] != x
      {
        assert more[i] != more[|xs|];
      }
    }
  }

  method CheckHeldBack(requirements: seq<Requirement>, blockers: seq<Blocker>) returns (issues: seq<Issue>)
    ensures issues == [] <==>
            forall i :: 0 <= i < |requirements| && requirements[i].state != "validado-localmente" ==>
              IsBlocked(blockers, requirements[i].id)
  {
    issues := [];
    for i := 0 to |requirements|
      invariant issues == [] <==> forall k :: 0 <= k < i && requirements[k].state != LOCALLY_VALIDATED ==>
                                    IsBlocked(blockers, requirements[k].id)
    {
      if requirements[i].state != LOCALLY_VALIDATED {
        var blocked := false;
        for k := 0 to |blockers|
          invariant blocked <==> exists m :: 0 <= m < k && requirements[i].id in blockers[m].affectedRequirements
        {
          if requirements[i].id in blockers[k].affectedRequirements {
            blocked := true;
          }
        }
        if !blocked {
          issues := issues + [Issue(requirements[i].id, NotBlocked)];
        }
      }
    }
  }

  method CheckAll(e: Evidence, known: set<string>, requirements: seq<Requirement>) returns (issues: seq<Issue>)
    ensures issues == [] <==> forall i :: 0 <= i < |requirements| ==> IsClean(e, known, requirements[i])
  {
    issues := [];
    for i := 0 to |requirements|
      invariant issues == [] <==> forall k :: 0 <= k < i ==> IsClean(e, known, requirements[k])
    {
      var more := CheckRequirement(e, known, requirements[i]);
      issues := issues + more;
    }
  }

  /** No issue is reported exactly for a complete ledger under the fixed policy. */
  method ValidateRequirements(e: Evidence, known: set<string>, requirements: seq<Requirement>, blockers: seq<Blocker>)
    returns (issues: seq<Issue>)
    ensures issues == [] <==> IsComplete(e, known, requirements, blockers)
  {
    PolicyIdsDistinct();
    var ids := CheckIds(Ids(requirements), IdsUpTo(COUNT));
    var clean := CheckAll(e, known, requirements);
    var sound := CheckBlockers(PolicyIds(), blockers);
    var held := CheckHeldBack(requirements, blockers);
    issues := ids + clean + sound + held;
  }

  lemma PolicyIdsDistinct()
    ensures Distinct(PolicyIds())
  {
    var ids := PolicyIds();
    assert |ids[0]| == 18 && |ids[1]| == 13 && |ids[2]| == 15 && |ids[3]| == 14;
    assert |ids[4]| == 17 && |ids[5]| == 15 && |ids[6]| == 11 && |ids[7]| == 19;
    assert ids[2][4] != ids[5][4];
  }

  // ---------------------------------------------------------------- what a clean ledger means

  lemma SameSizeWhenSame(xs: seq<string>, ys: seq<string>)
    requires Distinct(xs) && Distinct(ys) && Members(xs) == Members(ys)
    ensures |xs| == |ys|
  {
    DistinctCount(xs);
    DistinctCount(ys);
  }

  lemma PlaceOf(xs: seq<string>, ys: seq<string>, k: nat) returns (i: nat)
    requires Members(xs) == Members(ys) && k < |ys|
    ensures i < |xs| && xs[i] == ys[k]
  {
    assert ys[k] in Members(ys);
    i :| 0 <= i < |xs| && xs[i] == ys[k];
  }

  lemma SoundFollows(policy: seq<string>, blockers: seq<Blocker>, i: nat)
    requires AreSound(policy, blockers, |blockers|) && i < |blockers| && blockers[i].id in policy
    ensures FollowsPolicy(blockers[i])
  {
    assert IsSound(policy, blockers[i]);
  }

  lemma OnlyPlace(ids: seq<string>, policy: seq<string>, id: string) returns (i: nat)
    requires Distinct(ids) && Distinct(policy) && Members(ids) == Members(policy) && id in policy
    ensures |ids| == |policy| && i < |ids| && ids[i] == id
    ensures forall j :: 0 <= j < |ids| && ids[j] == id ==> j == i
  {
    SameSizeWhenSame(ids, policy);
    var k :| 0 <= k < |policy| && policy[k] == id;
    i := PlaceOf(ids, policy, k);
  }

  /** A complete ledger has each of the 79 requirements at exactly one place and nothing else. */
  lemma EachRequirementOnce(e: Evidence, known: set<string>, requirements: seq<Requirement>, blockers: seq<Blocker>, n: nat)
    returns (i: nat)
    requires IsComplete(e, known, requirements, blockers) && 1 <= n <= 79
    ensures |requirements| == 79
    ensures i < |requirements| && requirements[i].id == RequirementId(n)
    ensures forall j :: 0 <= j < |requirements| && requirements[j].id == RequirementId(n) ==> j == i
  {
    var ids, expected := Ids(requirements), IdsUpTo(COUNT);
    IdsAreDistinct(COUNT);
    assert expected[n - 1] == RequirementId(n);
    i := OnlyPlace(ids, expected, RequirementId(n));
    forall j | 0 <= j < |requirements| && requirements[j].id == RequirementId(n)
      ensures j == i
    {
      assert ids[j] == RequirementId(n);
    }
  }

  /** A complete registry has each policy blocker at exactly one place, and it follows the policy. */
  lemma EachBlockerOnce(policy: seq<string>, blockers: seq<Blocker>, id: string) returns (i: nat)
    requires Distinct(policy) && Distinct(BlockerIds(blockers)) && Members(BlockerIds(blockers)) == Members(policy)
    requires AreSound(policy, blockers, |blockers|) && id in policy
    ensures |blockers| == |policy|
    ensures i < |blockers| && blockers[i].id == id && FollowsPolicy(blockers[i])
    ensures forall j :: 0 <= j < |blockers| && blockers[j].id == id ==> j == i
  {
    i := OnlyPlace(BlockerIds(blockers), policy, id);
    SoundFollows(policy, blockers, i);
  }

  // ---------------------------------------------------------------- the policy, entry by entry

  ghost predicate IsPolicy(b: Blocker, id: string, affected: set<string>, status: string, disposition: string) {
    b.id == id && Members(b.affectedRequirements) == affected && b.status == status && b.disposition == disposition
  }

  /** The eight blockers of the policy with the requirements each holds back. */
  ghost predicate IsPolicyEntry(b: Blocker) {
    || IsPolicy(b, "BLK-SOURCE-BINDING", {"R003", "R055", "R066", "R069", "R070"}, "open", "block-release")
    || IsPolicy(b, "BLK-AUTH-REAL", {"R007", "R008"}, "open", "block-release")
    || IsPolicy(b, "BLK-R015-REVIEW", {"R015"}, "open", "block-release")
    || IsPolicy(b, "BLK-R063-FORGE", {"R063"}, "open", "block-release")
    || IsPolicy(b, "BLK-MULTIPLATFORM", {"R044", "R055", "R070"}, "open", "block-release")
    || IsPolicy(b, "BLK-SANDBOX-EXT", {"R064"}, "open", "block-release")
    || IsPolicy(b, "BLK-RELEASE", {"R003", "R055", "R066", "R069", "R070"}, "open", "block-release")
    || IsPolicy(b, "BLK-COMPAT-BINARIES", {"R017", "R036", "R068"}, "conditional", "block-release-when-inputs-absent-or-mismatched")
  }

  lemma SameWhenSorted(xs: seq<string>, ys: seq<string>)
    requires Sort(xs) == Sort(ys)
    ensures Members(xs) == Members(ys)
  {
    forall x
      ensures x in xs <==> x in ys
    {
      SortMembers(xs, x);
      SortMembers(ys, x);
    }
  }

  lemma FiveMembers()
    ensures Members(["R003", "R055", "R066", "R069", "R070"]) == {"R003", "R055", "R066", "R069", "R070"}
  {
    var five := ["R003", "R055", "R066", "R069", "R070"];
    assert five[0] in Members(five) && five[1] in Members(five) && five[2] in Members(five) && five[3] in Members(five)
           && five[4] in Members(five);
  }

  lemma ThreeMembers(a: string, b: string, c: string)
    ensures Members([a, b, c]) == {a, b, c}
  {
    var three := [a, b, c];
    assert three[0] in Members(three) && three[1] in Members(three) && three[2] in Members(three);
  }

  lemma TwoMembers(a: string, b: string)
    ensures Members([a, b]) == {a, b} && Members([a]) == {a}
  {
    var two, one := [a, b], [a];
    assert two[0] in Members(two) && two[1] in Members(two) && one[0] in Members(one);
  }

  /** The policy for one identifier. */
  ghost predicate HasPolicy(id: string, affected: set<string>, status: string, disposition: string) {
    Members(PolicyRequirements(id)) == affected && PolicyStatus(id) == status && PolicyDisposition(id) == disposition
  }

  lemma SourceAndRelease()
    ensures HasPolicy("BLK-SOURCE-BINDING", {"R003", "R055", "R066", "R069", "R070"}, "open", "block-release")
    ensures HasPolicy("BLK-RELEASE", {"R003", "R055", "R066", "R069", "R070"}, "open", "block-release")
  {
    assert |"BLK-SOURCE-BINDING"| == 18 && |"BLK-RELEASE"| == 11 && |COMPAT_BINARIES| == 19;
    FiveMembers();
  }

  lemma AuthAndReview()
    ensures HasPolicy("BLK-AUTH-REAL", {"R007", "R008"}, "open", "block-release")
    ensures HasPolicy("BLK-R015-REVIEW", {"R015"}, "open", "block-release")
  {
    assert |"BLK-AUTH-REAL"| == 13 && |"BLK-R015-REVIEW"| == 15 && |"BLK-RELEASE"| == 11;
    assert |SOURCE_BINDING| == 18 && |COMPAT_BINARIES| == 19;
    TwoMembers("R007", "R008");
    TwoMembers("R015", "R015");
  }

  lemma ForgeAndPlatforms()
    ensures HasPolicy("BLK-R063-FORGE", {"R063"}, "open", "block-release")
    ensures HasPolicy("BLK-MULTIPLATFORM", {"R044", "R055", "R070"}, "open", "block-release")
  {
    assert |"BLK-R063-FORGE"| == 14 && |"BLK-MULTIPLATFORM"| == 17 && |"BLK-AUTH-REAL"| == 13 && |R015_REVIEW| == 15;
    assert |SOURCE_BINDING| == 18 && |"BLK-RELEASE"| == 11 && |COMPAT_BINARIES| == 19;
    TwoMembers("R063", "R063");
    ThreeMembers("R044", "R055", "R070");
  }

  lemma SandboxAndBinaries()
    ensures HasPolicy("BLK-SANDBOX-EXT", {"R064"}, "open", "block-release")
    ensures HasPolicy("BLK-COMPAT-BINARIES", {"R017", "R036", "R068"}, "conditional", "block-release-when-inputs-absent-or-mismatched")
  {
    assert |"BLK-SANDBOX-EXT"| == 15 && |"BLK-COMPAT-BINARIES"| == 19 && |"BLK-MULTIPLATFORM"| == 17;
    assert |"BLK-R063-FORGE"| == 14 && |"BLK-AUTH-REAL"| == 13 && |R015_REVIEW| == 15;
    assert "BLK-SANDBOX-EXT"[4] == 'S' && R015_REVIEW[4] == 'R';
    assert |SOURCE_BINDING| == 18 && |"BLK-RELEASE"| == 11;
    TwoMembers("R064", "R064");
    ThreeMembers("R017", "R036", "R068");
  }

  lemma FollowsHasPolicy(b: Blocker, id: string, affected: set<string>, status: string, disposition: string)
    requires FollowsPolicy(b) && b.id == id && HasPolicy(id, affected, status, disposition)
    ensures IsPolicy(b, id, affected, status, disposition)
  {
    SameWhenSorted(b.affectedRequirements, PolicyRequirements(b.id));
  }

  /** A policy blocker that follows the policy is one of the eight entries. */
  lemma FollowsIsEntry(b: Blocker)
    requires FollowsPolicy(b) && b.id in PolicyIds()
    ensures IsPolicyEntry(b)
  {
    SourceAndRelease();
    AuthAndReview();
    ForgeAndPlatforms();
    SandboxAndBinaries();
    if b.id == "BLK-SOURCE-BINDING" {
      FollowsHasPolicy(b, "BLK-SOURCE-BINDING", {"R003", "R055", "R066", "R069", "R070"}, "open", "block-release");
    } else if b.id == "BLK-RELEASE" {
      FollowsHasPolicy(b, "BLK-RELEASE", {"R003", "R055", "R066", "R069", "R070"}, "open", "block-release");
    } else if b.id == "BLK-AUTH-REAL" {
      FollowsHasPolicy(b, "BLK-AUTH-REAL", {"R007", "R008"}, "open", "block-release");
    } else if b.id == "BLK-R015-REVIEW" {
      FollowsHasPolicy(b, "BLK-R015-REVIEW", {"R015"}, "open", "block-release");
    } else if b.id == "BLK-R063-FORGE" {
      FollowsHasPolicy(b, "BLK-R063-FORGE", {"R063"}, "open", "block-release");
    } else if b.id == "BLK-MULTIPLATFORM" {
      FollowsHasPolicy(b, "BLK-MULTIPLATFORM", {"R044", "R055", "R070"}, "open", "block-release");
    } else if b.id == "BLK-SANDBOX-EXT" {
      FollowsHasPolicy(b, "BLK-SANDBOX-EXT", {"R064"}, "open", "block-release");
    } else {
      FollowsHasPolicy(b, "BLK-COMPAT-BINARIES", {"R017", "R036", "R068"}, "conditional",
                       "block-release-when-inputs-absent-or-mismatched");
    }
  }

  /** The requirements a release may still lack: those a policy blocker holds back. */
  ghost const MAY_BE_OPEN :=
    {"R003", "R007", "R008", "R015", "R017", "R036", "R044", "R055", "R063", "R064", "R066", "R068", "R069", "R070"}

  lemma EntryMayBeOpen(b: Blocker, id: string)
    requires IsPolicyEntry(b) && id in b.affectedRequirements
    ensures id in MAY_BE_OPEN
  {
    assert id in Members(b.affectedRequirements);
  }

  /** In a complete ledger every requirement but these fourteen is locally validated, whatever the registry says. */
  lemma OthersAreValidated(e: Evidence, known: set<string>, requirements: seq<Requirement>, blockers: seq<Blocker>, i: nat)
    requires IsComplete(e, known, requirements, blockers) && i < |requirements|
    ensures requirements[i].id !in MAY_BE_OPEN ==> requirements[i].state == "validado-localmente"
  {
    if requirements[i].state != "validado-localmente" {
      var k :| 0 <= k < |blockers| && requirements[i].id in blockers[k].affectedRequirements;
      assert BlockerIds(blockers)[k] in Members(BlockerIds(blockers));
      SoundFollows(PolicyIds(), blockers, k);
      FollowsIsEntry(blockers[k]);
      EntryMayBeOpen(blockers[k], requirements[i].id);
    }
  }
}
