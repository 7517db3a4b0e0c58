/** The strict reader of a release bill of materials (`npmComponentsFromExactRootGraph` in
    `scripts/release-licenses.ts`). */
module RootGraph {
  import opened Wrappers
  import opened Sorting
  import opened Lists
  import opened Texts
  import opened Components
  import opened NpmPurl

  const MAX_COMPONENTS := 1024

  predicate IsOpenCode(c: Component) {
    !IsNpm(c) && c.name == "opencode-curated-source"
  }

  predicate IsBunRuntime(c: Component) {
    !IsNpm(c) && !IsOpenCode(c) && (c.name == "bun-runtime" || "runtime:bun@" <= c.bomRef)
  }

  /** What each component has to satisfy on its own. */
  ghost predicate IsAccepted(c: Component) {
    && |c.licenses| == 1 && HasText(c.licenses[0])
    && if c.purl.Some? && "pkg:npm/" <= c.purl.value
       then c.kind == Library && c.purl == Some(c.bomRef) && c.bomRef == Purl(c.name, c.version)
       else if c.name == "opencode-curated-source" then c.kind == Library
       else (c.name == "bun-runtime" || "runtime:bun@" <= c.bomRef) && c.kind == Application
  }

  predicate IsDistribution(p: Property) {
    p.name == "ralph:bun-runtime-distribution"
  }

  function Distribution(embedded: bool): string {
    if embedded then "embedded-and-locally-curated" else "not-embedded-host-runtime-required"
  }

  /** The references the root has to depend on. */
  function ExpectedRefs(components: seq<Component>, bun: Option<Component>): seq<string> {
    Refs(Where(IsNpm, components)) + if bun.Some? then [bun.value.bomRef] else []
  }

  /** The bills of materials the reader accepts, where `text` is the canonical text of a component. */
  ghost predicate IsExact(bom: Bom, bun: Option<Component>, text: Component -> string) {
    && |bom.components| <= 1024
    && DistinctKeys(BomRef, bom.components)
    && (forall c :: c in bom.components ==> IsAccepted(c))
    && |Where(IsOpenCode, bom.components)| == 1
    && BunMatches(Where(IsBunRuntime, bom.components), bun, text)
    && Declares(Where(IsDistribution, bom.properties), bun)
    && RootMatches(bom, ExpectedRefs(bom.components, bun))
  }

  ghost predicate BunMatches(embedded: seq<Component>, bun: Option<Component>, text: Component -> string) {
    if bun.Some? then |embedded| == 1 && text(embedded[0]) == text(bun.value) else embedded == []
  }

  /** One property says how the runtime is distributed, and says it truly. */
  ghost predicate Declares(declared: seq<Property>, bun: Option<Component>) {
    && |declared| == 1
    && declared[0].value == if bun.Some? then "embedded-and-locally-curated" else "not-embedded-host-runtime-required"
  }

  /** The one dependency record is the root's, lists nothing twice, and lists exactly the expected references. */
  ghost predicate RootMatches(bom: Bom, expected: seq<string>) {
    && |bom.dependencies| == 1
    && bom.dependencies[0].ref == bom.application.bomRef
    && Distinct(bom.dependencies[0].dependsOn)
    && Sort(bom.dependencies[0].dependsOn) == Sort(expected)
  }

  // ---------------------------------------------------------------- the loop over components

  ghost predicate Reading(done: seq<Component>, refs: set<string>, npm: seq<Component>, bun: seq<Component>, openCode: nat) {
    && DistinctKeys(BomRef, done)
    && (forall c :: c in done ==> IsAccepted(c))
    && AreRefs(done, refs)
    && npm == Where(IsNpm, done)
    && bun == Where(IsBunRuntime, done)
    && openCode == |Where(IsOpenCode, done)|
  }

  lemma WhereNext(keep: Component -> bool, done: seq<Component>, c: Component)
    ensures Where(keep, done + [c]) == Where(keep, done) + if keep(c) then [c] else []
  {
    WhereConcat(keep, done, [c]);
    WhereOne(keep, c);
  }

  ghost predicate AreRefs(done: seq<Component>, refs: set<string>) {
    forall ref :: ref in refs <==> exists i :: 0 <= i < |done| && done[i].bomRef == ref
  }

  lemma RefsNext(done: seq<Component>, refs: set<string>, c: Component)
    requires AreRefs(done, refs) && DistinctKeys(BomRef, done) && c.bomRef !in refs
    ensures AreRefs(done + [c], refs + {c.bomRef}) && DistinctKeys(BomRef, done + [c])
  {
    var more := done + [c];
    forall ref
      ensures ref in refs + {c.bomRef} <==> exists i :: 0 <= i < |more| && more[i].bomRef == ref
    {
      if ref in refs {
        var i :| 0 <= i < |done| && done[i].bomRef == ref;
        assert more[i].bomRef == ref;
      }
      assert more[|done|].bomRef == c.bomRef;
    }
  }

  lemma ReadingNext(done: seq<Component>, refs: set<string>, npm: seq<Component>, bun: seq<Component>, openCode: nat, c: Component)
    requires Reading(done, refs, npm, bun, openCode)
    requires c.bomRef !in refs && IsAccepted(c)
    ensures Reading(done + [c], refs + {c.bomRef}, npm + (if IsNpm(c) then [c] else []),
                    bun + (if IsBunRuntime(c) then [c] else []), openCode + (if IsOpenCode(c) then 1 else 0))
  {
    WhereNext(IsNpm, done, c);
    WhereNext(IsBunRuntime, done, c);
    WhereNext(IsOpenCode, done, c);
    RefsNext(done, refs, c);
  }

  lemma RepeatedRef(done: seq<Component>, c: Component, rest: seq<Component>, refs: set<string>)
    requires AreRefs(done, refs) && c.bomRef in refs
    ensures !DistinctKeys(BomRef, done + [c] + rest)
  {
    var i :| 0 <= i < |done| && done[i].bomRef == c.bomRef;
    var all := done + [c] + rest;
    assert BomRef(all[i]) == BomRef(all[|done|]);
  }

  datatype Class = Npm | OpenCode | BunRuntime | Rejected

  /** The checks on one component, in the order of the loop body. */
  method Classify(c: Component) returns (r: Class)
    ensures r.Rejected? <==> !IsAccepted(c)
    ensures r.Npm? <==> IsAccepted(c) && IsNpm(c)
    ensures r.OpenCode? <==> IsAccepted(c) && IsOpenCode(c)
    ensures r.BunRuntime? <==> IsAccepted(c) && IsBunRuntime(c)
  {
    if |c.licenses| == 1 {
      TrimKeepsText(c.licenses[0]);
    }
    if !HasOneLicense(c) {
      return Rejected;
    }
    if IsNpm(c) {
      if c.kind != Library || c.purl != Some(c.bomRef) || c.purl != Some(Purl(c.name, c.version)) {
        return Rejected;
      }
      r := Npm;
    } else if c.name == "opencode-curated-source" {
      r := if c.kind != Library then Rejected else OpenCode;
    } else if c.name == "bun-runtime" || "runtime:bun@" <= c.bomRef {
      r := if c.kind != Application then Rejected else BunRuntime;
    } else {
      r := Rejected;
    }
  }

  lemma PrefixMember<T>(xs: seq<T>, i: nat)
    requires i < |xs|
    ensures xs[..i + 1] == xs[..i] + [xs[i]] && xs[i] in xs
    ensures xs == xs[..i] + [xs[i]] + xs[i + 1..]
  {
  }

  method ReadComponents(components: seq<Component>)
    returns (ok: bool, npm: seq<Component>, bun: seq<Component>, openCode: nat)
    ensures ok <==> DistinctKeys(BomRef, components) && forall c :: c in components ==> IsAccepted(c)
    ensures ok ==> npm == Where(IsNpm, components) && bun == Where(IsBunRuntime, components)
    ensures ok ==> openCode == |Where(IsOpenCode, components)|
  {
    var refs: set<string> := {};
    npm, bun, openCode := [], [], 0;
    for i := 0 to |components|
      invariant Reading(components[..i], refs, npm, bun, openCode)
    {
      var c := components[i];
      PrefixMember(components, i);
      if c.bomRef in refs {
        RepeatedRef(components[..i], c, components[i + 1..], refs);
        return false, npm, bun, openCode;
      }
      var kind := Classify(c);
      if kind.Rejected? {
        return false, npm, bun, openCode;
      }
      ReadingNext(components[..i], refs, npm, bun, openCode, c);
      refs := refs + {c.bomRef};
      match kind {
        case Npm => npm := npm + [c];
        case OpenCode => openCode := openCode + 1;
        case BunRuntime => bun := bun + [c];
      }
    }
    assert components[..|components|] == components;
    ok := true;
  }

  /** Accepts exactly the exact bills of materials, and returns their npm components in byte order. */
  method NpmComponentsFromExactRootGraph(bom: Bom, expected: Option<Component>, text: Component -> string)
    returns (r: Option<seq<Component>>)
    ensures r.Some? <==> IsExact(bom, expected, text)
    ensures r.Some? ==> r.value == SortBy(BomRef, Where(IsNpm, bom.components))
  {
    if |bom.components| > MAX_COMPONENTS {
      return None;
    }
    var ok, npm, bun, openCode := ReadComponents(bom.components);
    if !ok || openCode != 1 {
      return None;
    }
    if (expected.Some? && (|bun| != 1 || text(bun[0]) != text(expected.value))) || (expected.None? && |bun| != 0) {
      return None;
    }
    var distribution := Where(IsDistribution, bom.properties);
    if |distribution| != 1 || distribution[0].value != Distribution(expected.Some?) {
      return None;
    }
    if |bom.dependencies| != 1 || bom.dependencies[0].ref != bom.application.bomRef {
      return None;
    }
    var declared := bom.dependencies[0].dependsOn;
    DistinctCount(declared);
    if |Members(declared)| != |declared| {
      return None;
    }
    var refs := Refs(npm) + if expected.Some? then [expected.value.bomRef] else [];
    TextDecidesList(Sort(declared), Sort(refs));
    if ListText(Sort(declared)) != ListText(Sort(refs)) {
      return None;
    }
    r := Some(SortBy(BomRef, npm));
  }

  /** An accepted root depends on the npm components and the embedded runtime, and on nothing else. */
  lemma RootDependsOnAll(bom: Bom, bun: Option<Component>, text: Component -> string, ref: string)
    requires IsExact(bom, bun, text)
    ensures ref in bom.dependencies[0].dependsOn <==>
            (exists c :: c in bom.components && c.purl.Some? && "pkg:npm/" <= c.purl.value && c.bomRef == ref)
            || (bun.Some? && bun.value.bomRef == ref)
  {
    var declared, expected := bom.dependencies[0].dependsOn, ExpectedRefs(bom.components, bun);
    SortPermutes(Itself, declared);
    SortPermutes(Itself, expected);
    assert ref in declared <==> ref in multiset(declared);
    assert ref in expected <==> ref in multiset(expected);
    var npm := Where(IsNpm, bom.components);
    RefsHold(npm, ref);
  }

  lemma RefsHold(cs: seq<Component>, ref: string)
    ensures ref in Refs(cs) <==> exists c :: c in cs && c.bomRef == ref
  {
    if ref in Refs(cs) {
      var i :| 0 <= i < |cs| && Refs(cs)[i] == ref;
      assert cs[i] in cs;
    }
    if c :| c in cs && c.bomRef == ref {
      var i :| 0 <= i < |cs| && cs[i] == c;
      assert Refs(cs)[i] == ref;
    }
  }

  /** No two results share a name and version, nor a reference. */
  lemma ResultIsDistinct(bom: Bom, bun: Option<Component>, text: Component -> string)
    requires IsExact(bom, bun, text)
    ensures var r := SortBy(BomRef, Where(IsNpm, bom.components));
            && IsSorted(BomRef, r) && DistinctKeys(BomRef, r)
            && forall i, j :: 0 <= i < j < |r| ==> (r[i].name, r[i].version) != (r[j].name, r[j].version)
  {
    var npm := Where(IsNpm, bom.components);
    var r := SortBy(BomRef, npm);
    WhereDistinct(BomRef, IsNpm, bom.components);
    SortDistinct(BomRef, npm);
    SortSorts(BomRef, npm);
    SortPermutes(BomRef, npm);
    forall i, j | 0 <= i < j < |r|
      ensures (r[i].name, r[i].version) != (r[j].name, r[j].version)
    {
      assert r[i] in multiset(r) && r[j] in multiset(r);
      assert r[i] in npm && r[j] in npm;
      assert IsAccepted(r[i]) && IsAccepted(r[j]);
      assert BomRef(r[i]) != BomRef(r[j]);
    }
  }
}
