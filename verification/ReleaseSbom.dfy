/** The component assembly of `createReleaseSbom` in `scripts/release-sbom.ts`, and its agreement with the strict
    reader of the license inventory. */
module ReleaseSbom {
  import opened Wrappers
  import opened Sorting
  import opened Utf8
  import opened LockPackages
  import opened PackageClosure
  import opened Lists
  import opened Texts
  import opened Components
  import opened RootGraph
  import opened NpmPurl
  import TrailingCommas

  /** The verified provenance of the curated OpenCode source. */
  datatype OpenCode = OpenCode(
    revision: string,
    packageVersion: string,
    repository: string,
    licenseSha256: string,
    manifestSha256: string)

  /** The validated curation of an embedded Bun runtime. */
  datatype BunCuration = BunCuration(version: string, revision: string, manifestSha256: string)

  /** What a release is called and licensed under. */
  datatype Release = Release(name: string, version: string, license: string, fingerprint: string)

  // ---------------------------------------------------------------- one component each

  /** `sha512Hex`, over a decoder that gives the hexadecimal form of a 64-byte base64 text. */
  function Sha512Hex(hex: string -> Option<string>, integrity: Option<string>): Option<Option<string>> {
    if integrity.None? || !("sha512-" <= integrity.value) then Some(None)
    else
      var decoded := hex(integrity.value[7..]);
      if decoded.None? then None else Some(decoded)
  }

  /** None when the package declares no license or its integrity is malformed. */
  function PackageComponent(hex: string -> Option<string>, c: Chosen): Option<Component> {
    var license := c.manifest.license;
    if license.None? || Trim(license.value) == "" then None
    else
      var hash := Sha512Hex(hex, c.package.integrity);
      if hash.None? then None
      else
        var purl := Purl(c.package.name, c.package.version);
        Some(Component(Library, purl, c.package.name, c.package.version, Some(purl), hash.value, [Trim(license.value)],
                       Some([Property("ralph:bun-lock-key", c.package.key),
                             Property("ralph:license-source", "installed-package-manifest")])))
  }

  /** `text` is `whole` without its outer white space. */
  ghost predicate IsTrimmed(text: string, whole: string) {
    && text != "" && !TrailingCommas.IsSpace(text[0]) && !TrailingCommas.IsSpace(text[|text| - 1])
    && exists before, after :: IsAround(before, text, after, whole)
  }

  ghost predicate IsAround(before: string, text: string, after: string, whole: string) {
    && whole == before + text + after
    && (forall i :: 0 <= i < |before| ==> TrailingCommas.IsSpace(before[i]))
    && (forall i :: 0 <= i < |after| ==> TrailingCommas.IsSpace(after[i]))
  }

  /** The integrity is a SHA-512 one, in base64. */
  ghost predicate IsSha512(integrity: Option<string>, base64: string) {
    integrity == Some("sha512-" + base64)
  }

  /** The hash of a component: the hexadecimal form of a SHA-512 integrity, and none for any other. */
  ghost predicate IsHashOf(hex: string -> Option<string>, integrity: Option<string>, sha512: Option<string>) {
    && (forall base64 :: IsSha512(integrity, base64) ==> sha512.Some? && hex(base64) == sha512)
    && ((forall base64 :: !IsSha512(integrity, base64)) ==> sha512.None?)
  }

  /** What a bill says of a chosen package. */
  ghost predicate Describes(hex: string -> Option<string>, c: Chosen, p: Component) {
    && p.kind == Library
    && p.name == c.package.name && p.version == c.package.version
    && p.bomRef == Purl(p.name, p.version) && p.purl == Some(p.bomRef)
    && IsHashOf(hex, c.package.integrity, p.sha512)
    && c.manifest.license.Some? && |p.licenses| == 1 && IsTrimmed(p.licenses[0], c.manifest.license.value)
    && HasValue(p, "ralph:bun-lock-key", c.package.key)
    && HasValue(p, "ralph:license-source", "installed-package-manifest")
    && |p.properties.value| == 2
  }

  ghost predicate HasValue(p: Component, name: string, value: string) {
    p.properties.Some? && Property(name, value) in p.properties.value
  }

  /** A package can be put in a bill: its manifest declares a license and a SHA-512 integrity is well formed. */
  ghost predicate CanDescribe(hex: string -> Option<string>, c: Chosen) {
    && c.manifest.license.Some? && HasText(c.manifest.license.value)
    && forall base64 :: IsSha512(c.package.integrity, base64) ==> hex(base64).Some?
  }

  lemma PrependSpace(c: char, before: string, text: string, rest: string)
    requires IsAround(before, text, "", rest) && TrailingCommas.IsSpace(c)
    ensures IsAround([c] + before, text, "", [c] + rest)
  {
    assert [c] + rest == [c] + before + text + "";
  }

  lemma {:induction false} TrimStartAround(s: string)
    ensures exists before :: IsAround(before, TrimStart(s), "", s)
  {
    if s != "" && TrailingCommas.IsSpace(s[0]) {
      TrimStartAround(s[1..]);
      var before :| IsAround(before, TrimStart(s[1..]), "", s[1..]);
      assert s == [s[0]] + s[1..];
      PrependSpace(s[0], before, TrimStart(s[1..]), s[1..]);
      assert TrimStart(s) == TrimStart(s[1..]);
    } else {
      assert s == "" + s + "";
      assert IsAround("", TrimStart(s), "", s);
    }
  }

  lemma AppendSpace(text: string, after: string, short: string, c: char)
    requires IsAround("", text, after, short) && TrailingCommas.IsSpace(c)
    ensures IsAround("", text, after + [c], short + [c])
  {
    assert short + [c] == "" + text + (after + [c]);
  }

  lemma {:induction false} TrimEndAround(s: string)
    ensures exists after :: IsAround("", TrimEnd(s), after, s)
  {
    if s != "" && TrailingCommas.IsSpace(s[|s| - 1]) {
      var short := s[..|s| - 1];
      TrimEndAround(short);
      var after :| IsAround("", TrimEnd(short), after, short);
      assert s == short + [s[|s| - 1]];
      AppendSpace(TrimEnd(short), after, short, s[|s| - 1]);
    } else {
      assert s == "" + s + "";
      assert IsAround("", TrimEnd(s), "", s);
    }
  }

  lemma JoinAround(before: string, text: string, after: string, middle: string, whole: string)
    requires IsAround(before, middle, "", whole) && IsAround("", text, after, middle)
    ensures IsAround(before, text, after, whole)
  {
    assert whole == before + text + after;
  }

  lemma TrimIsTrimmed(s: string)
    requires HasText(s)
    ensures IsTrimmed(Trim(s), s)
  {
    var middle := TrimStart(s);
    TrimKeepsText(s);
    TrimStartAround(s);
    TrimEndAround(middle);
    var before :| IsAround(before, middle, "", s);
    var after :| IsAround("", Trim(s), after, middle);
    JoinAround(before, Trim(s), after, middle, s);
  }

  lemma Sha512HexMeans(hex: string -> Option<string>, integrity: Option<string>)
    ensures Sha512Hex(hex, integrity).Some? <==> forall base64 :: IsSha512(integrity, base64) ==> hex(base64).Some?
    ensures Sha512Hex(hex, integrity).Some? ==> IsHashOf(hex, integrity, Sha512Hex(hex, integrity).value)
  {
    if integrity.Some? && "sha512-" <= integrity.value {
      var base64 := integrity.value[7..];
      assert integrity.value == "sha512-" + base64;
      forall other | IsSha512(integrity, other)
        ensures other == base64
      {
        assert ("sha512-" + other)[7..] == other;
      }
      assert IsSha512(integrity, base64);
    } else {
      forall base64
        ensures !IsSha512(integrity, base64)
      {
        assert "sha512-" <= "sha512-" + base64;
      }
    }
  }

  /** A package is put in the bill exactly when it can be described, and then it is described. */
  lemma PackageComponentMeans(hex: string -> Option<string>, c: Chosen)
    ensures PackageComponent(hex, c).Some? <==> CanDescribe(hex, c)
    ensures PackageComponent(hex, c).Some? ==> Describes(hex, c, PackageComponent(hex, c).value)
  {
    Sha512HexMeans(hex, c.package.integrity);
    if c.manifest.license.Some? {
      TrimKeepsText(c.manifest.license.value);
      if HasText(c.manifest.license.value) {
        TrimIsTrimmed(c.manifest.license.value);
      }
    }
  }

  function Take(s: string, n: nat): string {
    if |s| <= n then s else s[..n]
  }

  function OpenCodeComponent(o: OpenCode): Component {
    var reference := "pkg:github/anomalyco/opencode@" + o.revision;
    Component(Library, reference, "opencode-curated-source", o.packageVersion + "+" + Take(o.revision, 7),
              Some(reference), None, ["MIT"],
              Some([Property("ralph:classification", "bounded-derived-source"),
                    Property("ralph:provenance-manifest-sha256", o.manifestSha256),
                    Property("ralph:runtime-dependency", "false"),
                    Property("ralph:upstream-commit", o.revision),
                    Property("ralph:upstream-license", "MIT"),
                    Property("ralph:upstream-license-sha256-lf", o.licenseSha256),
                    Property("ralph:upstream-repository", o.repository),
                    Property("ralph:upstream-version", o.packageVersion)]))
  }

  function BunComponent(b: BunCuration): Component {
    Component(Application, "runtime:bun@" + b.version + "#" + b.revision, "bun-runtime", b.version, None, None,
              ["LicenseRef-Bun-Runtime-Curation-" + b.manifestSha256],
              Some([Property("ralph:classification", "embedded-runtime"),
                    Property("ralph:runtime-dependency", "true"),
                    Property("ralph:bun-runtime-revision", b.revision),
                    Property("ralph:upstream-repository", "https://github.com/oven-sh/bun"),
                    Property("ralph:upstream-commit", b.revision),
                    Property("ralph:license-source", "validated-local-runtime-curation"),
                    Property("ralph:provenance-source", "validated-local-runtime-curation"),
                    Property("ralph:curation-manifest-sha256", b.manifestSha256)]))
  }

  function BunPart(bun: Option<BunCuration>): Option<Component> {
    if bun.Some? then Some(BunComponent(bun.value)) else None
  }

  function AsSeq(c: Option<Component>): seq<Component> {
    if c.Some? then [c.value] else []
  }

  function ApplicationComponent(release: Release): Component {
    var ref := Purl(release.name, release.version);
    Component(Application, ref, release.name, release.version, Some(ref), None, [release.license], None)
  }

  function MetadataProperties(release: Release, embedded: bool): seq<Property> {
    [Property("ralph:source-fingerprint-sha256", release.fingerprint),
     Property("ralph:bun-lockfile-version", "1"),
     Property("ralph:dependency-resolution", "conservative-lock-runtime-inventory"),
     Property("ralph:dependency-edges", "root-to-declared-runtime-components"),
     Property("ralph:bun-runtime-distribution", Distribution(embedded)),
     Property("ralph:launcher-workspace-source", "apps/ralph-launcher/package.json")]
  }

  /** The first seven characters of a revision, or all of a shorter one. */
  ghost predicate IsShort(short: string, revision: string) {
    short <= revision && (|short| == 7 || (short == revision && |short| < 7))
  }

  /** What a bill says of the curated OpenCode source. */
  ghost predicate DescribesOpenCode(o: OpenCode, p: Component) {
    && p.kind == Library && p.name == "opencode-curated-source"
    && (exists short :: IsShort(short, o.revision) && p.version == o.packageVersion + "+" + short)
    && p.bomRef == "pkg:github/anomalyco/opencode@" + o.revision && p.purl == Some(p.bomRef)
    && p.sha512.None? && p.licenses == ["MIT"]
    && HasValue(p, "ralph:provenance-manifest-sha256", o.manifestSha256)
    && HasValue(p, "ralph:upstream-commit", o.revision)
    && HasValue(p, "ralph:upstream-repository", o.repository)
    && HasValue(p, "ralph:upstream-version", o.packageVersion)
    && HasValue(p, "ralph:upstream-license-sha256-lf", o.licenseSha256)
    && HasValue(p, "ralph:upstream-license", "MIT")
    && HasValue(p, "ralph:classification", "bounded-derived-source")
    && HasValue(p, "ralph:runtime-dependency", "false")
    && |p.properties.value| == 8
  }

  /** What a bill says of an embedded Bun runtime. */
  ghost predicate DescribesBun(b: BunCuration, p: Component) {
    && p.kind == Application && p.name == "bun-runtime" && p.version == b.version
    && p.bomRef == "runtime:bun@" + b.version + "#" + b.revision && p.purl.None?
    && p.sha512.None? && p.licenses == ["LicenseRef-Bun-Runtime-Curation-" + b.manifestSha256]
    && HasValue(p, "ralph:bun-runtime-revision", b.revision)
    && HasValue(p, "ralph:upstream-commit", b.revision)
    && HasValue(p, "ralph:upstream-repository", "https://github.com/oven-sh/bun")
    && HasValue(p, "ralph:curation-manifest-sha256", b.manifestSha256)
    && HasValue(p, "ralph:classification", "embedded-runtime")
    && HasValue(p, "ralph:runtime-dependency", "true")
    && HasValue(p, "ralph:license-source", "validated-local-runtime-curation")
    && HasValue(p, "ralph:provenance-source", "validated-local-runtime-curation")
    && |p.properties.value| == 8
  }

  lemma OpenCodeIsDescribed(o: OpenCode)
    ensures DescribesOpenCode(o, OpenCodeComponent(o))
  {
    assert IsShort(if |o.revision| < 7 then o.revision else o.revision[..7], o.revision);
  }

  lemma BunIsDescribed(b: BunCuration)
    ensures DescribesBun(b, BunComponent(b))
  {
  }

  // ---------------------------------------------------------------- the whole bill

  function Assemble(npm: seq<Component>, openCode: OpenCode, bun: Option<BunCuration>, release: Release): Bom {
    var components := npm + [OpenCodeComponent(openCode)] + AsSeq(BunPart(bun));
    var application := ApplicationComponent(release);
    Bom(application, MetadataProperties(release, bun.Some?), components,
        [Dependency(application.bomRef, Sort(ExpectedRefs(components, BunPart(bun))))])
  }

  function PackageName(c: Chosen): string { c.package.name }

  function PackageVersion(c: Chosen): string { c.package.version }

  function ChosenIdentity(c: Chosen): string { Identity(c.package) }

  /** The comparison of the sort: by name, then by version. */
  predicate PairNotAfter(a: Chosen, b: Chosen) {
    if a.package.name == b.package.name then NotAfter(a.package.version, b.package.version)
    else NotAfter(a.package.name, b.package.name)
  }

  ghost predicate PairSorted(xs: seq<Chosen>) {
    forall i, j :: 0 <= i < j < |xs| ==> PairNotAfter(xs[i], xs[j])
  }

  /** A stable sort by version and then by name, which is the sort by name and then version. */
  function SortByPair(xs: seq<Chosen>): (r: seq<Chosen>)
    ensures |r| == |xs|
  {
    SortBy(PackageName, SortBy(PackageVersion, xs))
  }

  function Describe(hex: string -> Option<string>, xs: seq<Chosen>): (r: Option<seq<Component>>)
    ensures r.Some? <==> forall c :: c in xs ==> PackageComponent(hex, c).Some?
    ensures r.Some? ==> |r.value| == |xs| && forall i :: 0 <= i < |xs| ==> Some(r.value[i]) == PackageComponent(hex, xs[i])
  {
    if xs == [] then Some([])
    else
      var first, rest := PackageComponent(hex, xs[0]), Describe(hex, xs[1..]);
      assert xs == [xs[0]] + xs[1..];
      if first.None? || rest.None? then None else Some([first.value] + rest.value)
  }

  /** Each chosen package under its own identity, with a version that came from a locator. */
  ghost predicate IsNamed(s: Selection) {
    forall id :: id in s ==> Identity(s[id].package) == id && '@' !in s[id].package.version
  }

  /** A listing of the values of a selection, in some order. */
  ghost predicate IsValues(s: Selection, xs: seq<Chosen>) {
    && DistinctKeys(ChosenIdentity, xs)
    && forall c :: c in xs <==> Identity(c.package) in s && s[Identity(c.package)] == c
  }

  method ListValues(s: Selection) returns (xs: seq<Chosen>)
    requires IsNamed(s)
    ensures IsValues(s, xs)
  {
    xs := [];
    var left := s.Keys;
    while left != {}
      invariant left <= s.Keys
      invariant DistinctKeys(ChosenIdentity, xs)
      invariant forall c :: c in xs <==> Identity(c.package) in s && Identity(c.package) !in left && s[Identity(c.package)] == c
      decreases |left|
    {
      var id :| id in left;
      forall i | 0 <= i < |xs|
        ensures ChosenIdentity(xs[i]) != id
      {
        assert xs[i] in xs;
      }
      xs := xs + [s[id]];
      left := left - {id};
    }
  }

  lemma {:induction false} InsertKeepsPairs(x: Chosen, xs: seq<Chosen>)
    requires PairSorted(xs)
    requires forall y :: y in xs && y.package.name == x.package.name ==> NotAfter(x.package.version, y.package.version)
    ensures PairSorted(Insert(PackageName, x, xs))
  {
    if xs == [] {
    } else if NotAfter(x.package.name, xs[0].package.name) {
      forall j | 0 <= j < |xs|
        ensures PairNotAfter(x, xs[j])
      {
        if j > 0 {
          assert PairNotAfter(xs[0], xs[j]);
          OrderIsTotal(xs[0].package.name, xs[j].package.name);
          OrderIsTransitive(x.package.name, xs[0].package.name, xs[j].package.name);
        }
      }
    } else {
      var rest := Insert(PackageName, x, xs[1..]);
      InsertKeepsPairs(x, xs[1..]);
      OrderIsTotal(x.package.name, xs[0].package.name);
      forall j | 0 <= j < |rest|
        ensures PairNotAfter(xs[0], rest[j])
      {
        InsertMembers(PackageName, x, xs[1..], rest[j]);
        if rest[j] != x {
          var k :| 0 <= k < |xs[1..]| && xs[1..][k] == rest[j];
          assert PairNotAfter(xs[0], xs[k + 1]);
        }
      }
    }
  }

  lemma {:induction false} StableSortSortsPairs(xs: seq<Chosen>)
    requires IsSorted(PackageVersion, xs)
    ensures PairSorted(SortBy(PackageName, xs))
  {
    if xs == [] {
    } else {
      var rest := SortBy(PackageName, xs[1..]);
      StableSortSortsPairs(xs[1..]);
      SortPermutes(PackageName, xs[1..]);
      forall y | y in rest
        ensures NotAfter(xs[0].package.version, y.package.version)
      {
        assert y in multiset(rest);
        assert y in xs[1..];
        var k :| 0 <= k < |xs[1..]| && xs[1..][k] == y;
        assert NotAfter(PackageVersion(xs[0]), PackageVersion(xs[k + 1]));
      }
      InsertKeepsPairs(xs[0], rest);
    }
  }

  lemma SortByPairSorts(s: Selection, xs: seq<Chosen>)
    requires IsValues(s, xs)
    ensures PairSorted(SortByPair(xs)) && IsValues(s, SortByPair(xs))
  {
    var once := SortBy(PackageVersion, xs);
    SortSorts(PackageVersion, xs);
    StableSortSortsPairs(once);
    SortPermutes(PackageVersion, xs);
    SortPermutes(PackageName, once);
    PermutedValues(s, xs, SortByPair(xs));
  }

  lemma PermutedValues(s: Selection, xs: seq<Chosen>, ys: seq<Chosen>)
    requires IsValues(s, xs) && multiset(xs) == multiset(ys)
    ensures IsValues(s, ys)
  {
    forall c
      ensures c in ys <==> c in xs
    {
      assert c in ys <==> c in multiset(ys);
      assert c in xs <==> c in multiset(xs);
    }
    DistinctOf(xs);
    forall i, j | 0 <= i < j < |ys|
      ensures ChosenIdentity(ys[i]) != ChosenIdentity(ys[j])
    {
      if ChosenIdentity(ys[i]) == ChosenIdentity(ys[j]) {
        assert ys[i] in ys && ys[j] in ys;
        assert ys[i] == ys[j];
        assert multiset(ys)[ys[i]] >= 2 by { TwiceCounted(ys, i, j); }
        DistinctMultiplicity(xs, ys[i]);
      }
    }
  }

  lemma DistinctOf(xs: seq<Chosen>)
    requires DistinctKeys(ChosenIdentity, xs)
    ensures Distinct(xs)
  {
    forall i, j | 0 <= i < j < |xs|
      ensures xs[i] != xs[j]
    {
      assert ChosenIdentity(xs[i]) != ChosenIdentity(xs[j]);
    }
  }

  predicate PairBefore(a: Chosen, b: Chosen) {
    PairNotAfter(a, b) && !PairNotAfter(b, a)
  }

  lemma PairAntisymmetric(a: Chosen, b: Chosen)
    requires PairNotAfter(a, b) && PairNotAfter(b, a)
    ensures ChosenIdentity(a) == ChosenIdentity(b)
  {
    OrderIsTotal(a.package.name, b.package.name);
    OrderIsTotal(a.package.version, b.package.version);
  }

  lemma PairsAreOrdered(xs: seq<Chosen>)
    requires PairSorted(xs) && DistinctKeys(ChosenIdentity, xs)
    ensures Ordered(PairBefore, xs)
  {
    forall i, j | 0 <= i < j < |xs|
      ensures PairBefore(xs[i], xs[j])
    {
      assert ChosenIdentity(xs[i]) != ChosenIdentity(xs[j]);
      if PairNotAfter(xs[j], xs[i]) {
        PairAntisymmetric(xs[i], xs[j]);
      }
    }
  }

  /** Sorted by name and version, the packages of a selection form one list only. */
  lemma PairSortedUnique(xs: seq<Chosen>, ys: seq<Chosen>)
    requires PairSorted(xs) && PairSorted(ys) && DistinctKeys(ChosenIdentity, xs) && DistinctKeys(ChosenIdentity, ys)
    requires forall c :: c in xs <==> c in ys
    ensures xs == ys
  {
    PairsAreOrdered(xs);
    PairsAreOrdered(ys);
    OrderedUnique(PairBefore, xs, ys);
  }

  /** The bill a selection gives, whatever order it was collected in. */
  ghost predicate IsRelease(
    hex: string -> Option<string>, s: Selection, openCode: OpenCode, bun: Option<BunCuration>, release: Release, bom: Bom)
  {
    exists xs :: IsValues(s, xs) && PairSorted(xs) && Describe(hex, xs).Some?
                 && bom == Assemble(Describe(hex, xs).value, openCode, bun, release)
  }

  lemma ReleaseUnique(
    hex: string -> Option<string>, s: Selection, openCode: OpenCode, bun: Option<BunCuration>, release: Release, a: Bom, b: Bom)
    requires IsRelease(hex, s, openCode, bun, release, a) && IsRelease(hex, s, openCode, bun, release, b)
    ensures a == b
  {
    var xs :| IsValues(s, xs) && PairSorted(xs) && Describe(hex, xs).Some?
              && a == Assemble(Describe(hex, xs).value, openCode, bun, release);
    var ys :| IsValues(s, ys) && PairSorted(ys) && Describe(hex, ys).Some?
              && b == Assemble(Describe(hex, ys).value, openCode, bun, release);
    PairSortedUnique(xs, ys);
  }

  ghost predicate AllDescribed(hex: string -> Option<string>, s: Selection) {
    forall id :: id in s ==> CanDescribe(hex, s[id])
  }

  lemma DescribedTogether(hex: string -> Option<string>, s: Selection, xs: seq<Chosen>)
    requires IsNamed(s) && IsValues(s, xs)
    ensures Describe(hex, xs).Some? <==> AllDescribed(hex, s)
  {
    forall id | id in s
      ensures s[id] in xs
    {
      assert Identity(s[id].package) == id;
    }
    forall c: Chosen
      ensures PackageComponent(hex, c).Some? <==> CanDescribe(hex, c)
    {
      PackageComponentMeans(hex, c);
    }
  }

  // ---------------------------------------------------------------- agreement with the reader

  /** A component as the assembly makes it from a package. */
  predicate IsPackageComponent(c: Component) {
    && HasOneLicense(c) && c.kind == Library
    && c.purl == Some(c.bomRef) && c.bomRef == Purl(c.name, c.version)
  }

  lemma PackageComponentShape(hex: string -> Option<string>, c: Chosen)
    requires PackageComponent(hex, c).Some?
    ensures var p := PackageComponent(hex, c).value;
            IsPackageComponent(p) && p.name == c.package.name && p.version == c.package.version
  {
    var license := c.manifest.license.value;
    TrimKeepsText(license);
    TrimKeepsText(Trim(license));
  }

  lemma DescribedShape(hex: string -> Option<string>, s: Selection, xs: seq<Chosen>)
    requires IsNamed(s) && IsValues(s, xs) && Describe(hex, xs).Some?
    ensures forall c :: c in Describe(hex, xs).value ==> IsPackageComponent(c)
    ensures DistinctKeys(BomRef, Describe(hex, xs).value)
  {
    var npm := Describe(hex, xs).value;
    forall i | 0 <= i < |npm|
      ensures IsPackageComponent(npm[i]) && npm[i].name == xs[i].package.name && npm[i].version == xs[i].package.version
    {
      PackageComponentShape(hex, xs[i]);
    }
    forall i, j | 0 <= i < j < |npm|
      ensures BomRef(npm[i]) != BomRef(npm[j])
    {
      assert ChosenIdentity(xs[i]) != ChosenIdentity(xs[j]);
      if BomRef(npm[i]) == BomRef(npm[j]) {
        PurlInjective(npm[i].name, npm[i].version, npm[j].name, npm[j].version);
      }
    }
  }

  lemma NpmPrefix(name: string, version: string)
    ensures "pkg:npm/" <= Purl(name, version)
    ensures Purl(name, version)[0] == 'p' && Purl(name, version)[4] == 'n'
  {
  }

  lemma PackageIsNpm(c: Component)
    requires IsPackageComponent(c)
    ensures IsNpm(c) && IsAccepted(c) && !IsOpenCode(c) && !IsBunRuntime(c)
    ensures |c.bomRef| > 4 && c.bomRef[0] == 'p' && c.bomRef[4] == 'n'
  {
    TrimKeepsText(c.licenses[0]);
    NpmPrefix(c.name, c.version);
  }

  lemma TextStays(s: string)
    requires s != "" && !TrailingCommas.IsSpace(s[0])
    ensures Trim(s) != ""
  {
    TrimKeepsText(s);
  }

  lemma OpenCodeIsAccepted(o: OpenCode)
    ensures var c := OpenCodeComponent(o);
            && IsOpenCode(c) && IsAccepted(c) && !IsNpm(c) && !IsBunRuntime(c)
            && |c.bomRef| > 4 && c.bomRef[0] == 'p' && c.bomRef[4] == 'g'
  {
    var c := OpenCodeComponent(o);
    assert c.bomRef[4] == 'g';
    assert "pkg:npm/"[4] == 'n';
    TextStays("MIT");
  }

  lemma BunIsAccepted(b: BunCuration)
    ensures var c := BunComponent(b);
            && IsBunRuntime(c) && IsAccepted(c) && !IsNpm(c) && !IsOpenCode(c)
            && c.bomRef != "" && c.bomRef[0] == 'r'
  {
    var c := BunComponent(b);
    assert c.licenses[0][0] == 'L';
    TextStays(c.licenses[0]);
    assert c.bomRef[0] == 'r';
  }

  /** The bill a release produces has the shape the reader asks for, over the npm components it was made from. */
  lemma AssembledComponents(npm: seq<Component>, openCode: OpenCode, bun: Option<BunCuration>)
    requires DistinctKeys(BomRef, npm) && forall c :: c in npm ==> IsPackageComponent(c)
    ensures var all := npm + [OpenCodeComponent(openCode)] + AsSeq(BunPart(bun));
            && DistinctKeys(BomRef, all)
            && (forall c :: c in all ==> IsAccepted(c))
            && Where(IsNpm, all) == npm
            && Where(IsOpenCode, all) == [OpenCodeComponent(openCode)]
            && Where(IsBunRuntime, all) == AsSeq(BunPart(bun))
  {
    var o, b := OpenCodeComponent(openCode), AsSeq(BunPart(bun));
    OpenCodeIsAccepted(openCode);
    if bun.Some? {
      BunIsAccepted(bun.value);
    }
    forall c | c in npm
      ensures IsNpm(c) && IsAccepted(c) && !IsOpenCode(c) && !IsBunRuntime(c)
      ensures |c.bomRef| > 4 && c.bomRef[0] == 'p' && c.bomRef[4] == 'n'
    {
      PackageIsNpm(c);
    }
    AssembledFilters(npm, o, b);
    AssembledDistinct(npm, o, b);
  }

  lemma AssembledDistinct(npm: seq<Component>, o: Component, b: seq<Component>)
    requires DistinctKeys(BomRef, npm) && |b| <= 1
    requires forall c :: c in npm ==> |c.bomRef| > 4 && c.bomRef[0] == 'p' && c.bomRef[4] == 'n'
    requires |o.bomRef| > 4 && o.bomRef[0] == 'p' && o.bomRef[4] == 'g'
    requires forall c :: c in b ==> c.bomRef != "" && c.bomRef[0] == 'r'
    ensures DistinctKeys(BomRef, npm + [o] + b)
  {
    var all := npm + [o] + b;
    forall i, j | 0 <= i < j < |all|
      ensures BomRef(all[i]) != BomRef(all[j])
    {
      assert i < |npm| ==> all[i] in npm;
      assert j < |npm| ==> BomRef(npm[i]) != BomRef(npm[j]);
      assert j > |npm| ==> all[j] in b;
    }
  }

  lemma AssembledFilters(npm: seq<Component>, o: Component, b: seq<Component>)
    requires forall c :: c in npm ==> IsNpm(c) && !IsOpenCode(c) && !IsBunRuntime(c)
    requires IsOpenCode(o) && !IsNpm(o) && !IsBunRuntime(o)
    requires forall c :: c in b ==> IsBunRuntime(c) && !IsNpm(c) && !IsOpenCode(c)
    ensures Where(IsNpm, npm + [o] + b) == npm
    ensures Where(IsOpenCode, npm + [o] + b) == [o]
    ensures Where(IsBunRuntime, npm + [o] + b) == b
  {
    FilterParts(IsNpm, npm, o, b);
    FilterParts(IsOpenCode, npm, o, b);
    FilterParts(IsBunRuntime, npm, o, b);
    WhereAll(IsNpm, npm);
    WhereNone(IsNpm, b);
    WhereNone(IsOpenCode, npm);
    WhereNone(IsOpenCode, b);
    WhereNone(IsBunRuntime, npm);
    WhereAll(IsBunRuntime, b);
  }

  lemma FilterParts(keep: Component -> bool, npm: seq<Component>, o: Component, b: seq<Component>)
    ensures Where(keep, npm + [o] + b) == Where(keep, npm) + (if keep(o) then [o] else []) + Where(keep, b)
  {
    WhereConcat(keep, npm + [o], b);
    WhereConcat(keep, npm, [o]);
    WhereOne(keep, o);
  }

  lemma ExpectedDistinct(npm: seq<Component>, bun: Option<Component>)
    requires DistinctKeys(BomRef, npm)
    requires forall c :: c in npm ==> c.bomRef != "" && c.bomRef[0] == 'p'
    requires bun.Some? ==> bun.value.bomRef != "" && bun.value.bomRef[0] == 'r'
    ensures Distinct(Refs(npm) + if bun.Some? then [bun.value.bomRef] else [])
  {
    RefsDistinct(npm);
    var all := Refs(npm) + if bun.Some? then [bun.value.bomRef] else [];
    forall i, j | 0 <= i < j < |all|
      ensures all[i] != all[j]
    {
      assert all[i] == npm[i].bomRef && npm[i] in npm;
    }
  }

  lemma SortedAgain(xs: seq<string>)
    requires Distinct(xs)
    ensures Distinct(Sort(xs)) && Sort(Sort(xs)) == Sort(xs)
  {
    SortedDistinct(xs);
    SortPermutes(Itself, xs);
    assert DistinctKeys(Itself, Sort(xs));
    SortForgetsOrder(Itself, Sort(xs), xs);
  }

  lemma OneOfSix(ps: seq<Property>)
    requires |ps| == 6 && IsDistribution(ps[4])
    requires forall i :: 0 <= i < 6 && i != 4 ==> !IsDistribution(ps[i])
    ensures Where(IsDistribution, ps) == [ps[4]]
  {
    var a, b := ps[..4], ps[5..];
    assert ps == a + [ps[4]] + b;
    WhereConcat(IsDistribution, a + [ps[4]], b);
    WhereConcat(IsDistribution, a, [ps[4]]);
    WhereOne(IsDistribution, ps[4]);
    WhereNone(IsDistribution, a);
    WhereNone(IsDistribution, b);
  }

  lemma DeclaresDistribution(release: Release, embedded: bool)
    ensures Where(IsDistribution, MetadataProperties(release, embedded))
         == [Property("ralph:bun-runtime-distribution", Distribution(embedded))]
  {
    var all := MetadataProperties(release, embedded);
    forall i | 0 <= i < 6 && i != 4
      ensures !IsDistribution(all[i])
    {
      assert |all[i].name| != 30;
    }
    OneOfSix(all);
  }

  /** Producer and consumer agree: a release of at most 1024 components is accepted for the same Bun runtime, and
      the reader gets back exactly the components of the selected packages, in byte order of their references. */
  lemma ReleaseIsExact(
    hex: string -> Option<string>, s: Selection, openCode: OpenCode, bun: Option<BunCuration>, release: Release, bom: Bom,
    text: Component -> string)
    requires IsNamed(s) && IsRelease(hex, s, openCode, bun, release, bom) && |bom.components| <= 1024
    ensures IsExact(bom, BunPart(bun), text)
    ensures forall c :: c in Where(IsNpm, bom.components) <==> exists id :: id in s && PackageComponent(hex, s[id]) == Some(c)
  {
    var xs :| IsValues(s, xs) && PairSorted(xs) && Describe(hex, xs).Some?
              && bom == Assemble(Describe(hex, xs).value, openCode, bun, release);
    var npm := Describe(hex, xs).value;
    DescribedShape(hex, s, xs);
    AssembledComponents(npm, openCode, bun);
    DeclaresDistribution(release, bun.Some?);
    RootIsExact(npm, bun);
    NpmAreSelected(hex, s, xs);
  }

  lemma RootIsExact(npm: seq<Component>, bun: Option<BunCuration>)
    requires DistinctKeys(BomRef, npm) && forall c :: c in npm ==> IsPackageComponent(c)
    ensures var refs := Refs(npm) + if BunPart(bun).Some? then [BunPart(bun).value.bomRef] else [];
            Distinct(Sort(refs)) && Sort(Sort(refs)) == Sort(refs)
  {
    forall c | c in npm
      ensures c.bomRef != "" && c.bomRef[0] == 'p'
    {
      PackageIsNpm(c);
    }
    if bun.Some? {
      BunIsAccepted(bun.value);
    }
    ExpectedDistinct(npm, BunPart(bun));
    SortedAgain(Refs(npm) + if BunPart(bun).Some? then [BunPart(bun).value.bomRef] else []);
  }

  lemma NpmAreSelected(hex: string -> Option<string>, s: Selection, xs: seq<Chosen>)
    requires IsNamed(s) && IsValues(s, xs) && Describe(hex, xs).Some?
    ensures forall c :: c in Describe(hex, xs).value <==> exists id :: id in s && PackageComponent(hex, s[id]) == Some(c)
  {
    var npm := Describe(hex, xs).value;
    forall c
      ensures c in npm <==> exists id :: id in s && PackageComponent(hex, s[id]) == Some(c)
    {
      if c in npm {
        var i :| 0 <= i < |npm| && npm[i] == c;
        assert xs[i] in xs;
        assert PackageComponent(hex, s[Identity(xs[i].package)]) == Some(c);
      }
      if id :| id in s && PackageComponent(hex, s[id]) == Some(c) {
        assert Identity(s[id].package) == id;
        assert s[id] in xs;
        var i :| 0 <= i < |xs| && xs[i] == s[id];
        assert npm[i] == c;
      }
    }
  }

  // ---------------------------------------------------------------- what a bill says

  /** One component for each chosen package, each describing its package, in the order of name and version. */
  ghost predicate IsNpmPart(hex: string -> Option<string>, s: Selection, npm: seq<Component>) {
    && (forall id :: id in s ==> HasDescription(hex, s[id], npm))
    && (forall i :: 0 <= i < |npm| ==> DescribesOne(hex, s, npm[i]))
    && (forall i, j :: 0 <= i < j < |npm| ==> ComesBefore(npm[i], npm[j]))
  }

  ghost predicate HasDescription(hex: string -> Option<string>, c: Chosen, npm: seq<Component>) {
    exists i :: 0 <= i < |npm| && Describes(hex, c, npm[i])
  }

  ghost predicate DescribesOne(hex: string -> Option<string>, s: Selection, p: Component) {
    exists id :: id in s && Describes(hex, s[id], p)
  }

  /** By the bytes of the name, and by those of the version under one name. */
  ghost predicate ComesBefore(a: Component, b: Component) {
    if a.name == b.name then a.version != b.version && NotAfter(a.version, b.version) else NotAfter(a.name, b.name)
  }

  /** The components that are not npm packages: the curated source, and the runtime if one is embedded. */
  ghost predicate IsFixedPart(openCode: OpenCode, bun: Option<BunCuration>, rest: seq<Component>) {
    && |rest| == (if bun.Some? then 2 else 1)
    && DescribesOpenCode(openCode, rest[0])
    && (bun.Some? ==> DescribesBun(bun.value, rest[1]))
  }

  /** What a bill says of the release itself. */
  ghost predicate DescribesRelease(release: Release, embedded: bool, bom: Bom) {
    && bom.application.kind == Application
    && bom.application.name == release.name && bom.application.version == release.version
    && bom.application.licenses == [release.license]
    && bom.application.bomRef == Purl(release.name, release.version)
    && bom.application.purl == Some(bom.application.bomRef)
    && bom.application.sha512.None? && bom.application.properties.None?
    && Property("ralph:source-fingerprint-sha256", release.fingerprint) in bom.properties
    && Property("ralph:bun-lockfile-version", "1") in bom.properties
    && Property("ralph:dependency-resolution", "conservative-lock-runtime-inventory") in bom.properties
    && Property("ralph:dependency-edges", "root-to-declared-runtime-components") in bom.properties
    && Property("ralph:bun-runtime-distribution",
                if embedded then "embedded-and-locally-curated" else "not-embedded-host-runtime-required") in bom.properties
    && Property("ralph:launcher-workspace-source", "apps/ralph-launcher/package.json") in bom.properties
    && |bom.properties| == 6
  }

  /** The one dependency record: the application depends on the npm packages and the runtime, in byte order. */
  ghost predicate DependsOnParts(bom: Bom, npm: seq<Component>, rest: seq<Component>) {
    && |bom.dependencies| == 1
    && bom.dependencies[0].ref == bom.application.bomRef
    && IsSorted(Itself, bom.dependencies[0].dependsOn)
    && multiset(bom.dependencies[0].dependsOn) == multiset(Refs(npm) + if |rest| == 2 then [rest[1].bomRef] else [])
  }

  ghost predicate HasParts(
    hex: string -> Option<string>, s: Selection, openCode: OpenCode, bun: Option<BunCuration>, release: Release, bom: Bom,
    npm: seq<Component>, rest: seq<Component>)
  {
    && bom.components == npm + rest
    && IsNpmPart(hex, s, npm)
    && IsFixedPart(openCode, bun, rest)
    && DescribesRelease(release, bun.Some?, bom)
    && DependsOnParts(bom, npm, rest)
  }

  ghost predicate IsBill(
    hex: string -> Option<string>, s: Selection, openCode: OpenCode, bun: Option<BunCuration>, release: Release, bom: Bom)
  {
    exists npm, rest :: HasParts(hex, s, openCode, bun, release, bom, npm, rest)
  }

  lemma DescribedAt(hex: string -> Option<string>, s: Selection, xs: seq<Chosen>, i: nat)
    requires IsNamed(s) && IsValues(s, xs) && Describe(hex, xs).Some? && i < |xs|
    ensures Describes(hex, xs[i], Describe(hex, xs).value[i]) && DescribesOne(hex, s, Describe(hex, xs).value[i])
  {
    PackageComponentMeans(hex, xs[i]);
    assert xs[i] in xs;
  }

  lemma EachIsDescribed(hex: string -> Option<string>, s: Selection, xs: seq<Chosen>, id: string)
    requires IsNamed(s) && IsValues(s, xs) && Describe(hex, xs).Some? && id in s
    ensures HasDescription(hex, s[id], Describe(hex, xs).value)
  {
    assert Identity(s[id].package) == id;
    assert s[id] in xs;
    var i :| 0 <= i < |xs| && xs[i] == s[id];
    DescribedAt(hex, s, xs, i);
  }

  lemma DescribedInOrder(hex: string -> Option<string>, s: Selection, xs: seq<Chosen>, i: nat, j: nat)
    requires IsNamed(s) && IsValues(s, xs) && PairSorted(xs) && Describe(hex, xs).Some? && i < j < |xs|
    ensures ComesBefore(Describe(hex, xs).value[i], Describe(hex, xs).value[j])
  {
    DescribedAt(hex, s, xs, i);
    DescribedAt(hex, s, xs, j);
    assert ChosenIdentity(xs[i]) != ChosenIdentity(xs[j]);
    assert PairNotAfter(xs[i], xs[j]);
  }

  lemma DescribedIsNpmPart(hex: string -> Option<string>, s: Selection, xs: seq<Chosen>)
    requires IsNamed(s) && IsValues(s, xs) && PairSorted(xs) && Describe(hex, xs).Some?
    ensures IsNpmPart(hex, s, Describe(hex, xs).value)
  {
    var npm := Describe(hex, xs).value;
    forall i | 0 <= i < |npm|
      ensures DescribesOne(hex, s, npm[i])
    {
      DescribedAt(hex, s, xs, i);
    }
    forall id | id in s
      ensures HasDescription(hex, s[id], npm)
    {
      EachIsDescribed(hex, s, xs, id);
    }
    forall i, j | 0 <= i < j < |npm|
      ensures ComesBefore(npm[i], npm[j])
    {
      DescribedInOrder(hex, s, xs, i, j);
    }
  }

  lemma FixedIsFixedPart(openCode: OpenCode, bun: Option<BunCuration>)
    ensures IsFixedPart(openCode, bun, [OpenCodeComponent(openCode)] + AsSeq(BunPart(bun)))
  {
    OpenCodeIsDescribed(openCode);
    if bun.Some? {
      BunIsDescribed(bun.value);
    }
  }

  lemma AssembledDescribesRelease(npm: seq<Component>, openCode: OpenCode, bun: Option<BunCuration>, release: Release)
    ensures DescribesRelease(release, bun.Some?, Assemble(npm, openCode, bun, release))
  {
  }

  lemma ExpectedParts(npm: seq<Component>, openCode: OpenCode, bun: Option<BunCuration>)
    requires DistinctKeys(BomRef, npm) && forall c :: c in npm ==> IsPackageComponent(c)
    ensures ExpectedRefs(npm + [OpenCodeComponent(openCode)] + AsSeq(BunPart(bun)), BunPart(bun))
         == Refs(npm) + if bun.Some? then [BunPart(bun).value.bomRef] else []
  {
    AssembledComponents(npm, openCode, bun);
  }

  lemma AssembledDependsOnParts(npm: seq<Component>, openCode: OpenCode, bun: Option<BunCuration>, release: Release)
    requires DistinctKeys(BomRef, npm) && forall c :: c in npm ==> IsPackageComponent(c)
    ensures DependsOnParts(Assemble(npm, openCode, bun, release), npm, [OpenCodeComponent(openCode)] + AsSeq(BunPart(bun)))
  {
    ExpectedParts(npm, openCode, bun);
    var refs := Refs(npm) + if bun.Some? then [BunPart(bun).value.bomRef] else [];
    SortSorts(Itself, refs);
    SortPermutes(Itself, refs);
  }

  lemma PartsOfBill(
    hex: string -> Option<string>, s: Selection, openCode: OpenCode, bun: Option<BunCuration>, release: Release, bom: Bom,
    npm: seq<Component>, rest: seq<Component>)
    requires bom.components == npm + rest && IsNpmPart(hex, s, npm) && IsFixedPart(openCode, bun, rest)
    requires DescribesRelease(release, bun.Some?, bom) && DependsOnParts(bom, npm, rest)
    ensures IsBill(hex, s, openCode, bun, release, bom)
  {
    assert HasParts(hex, s, openCode, bun, release, bom, npm, rest);
  }

  lemma AssembledInOrder(npm: seq<Component>, openCode: OpenCode, bun: Option<BunCuration>, release: Release)
    ensures Assemble(npm, openCode, bun, release).components == npm + ([OpenCodeComponent(openCode)] + AsSeq(BunPart(bun)))
  {
  }

  lemma AssembledIsBill(
    hex: string -> Option<string>, s: Selection, openCode: OpenCode, bun: Option<BunCuration>, release: Release,
    xs: seq<Chosen>)
    requires IsNamed(s) && IsValues(s, xs) && PairSorted(xs) && Describe(hex, xs).Some?
    ensures IsBill(hex, s, openCode, bun, release, Assemble(Describe(hex, xs).value, openCode, bun, release))
  {
    var npm, rest := Describe(hex, xs).value, [OpenCodeComponent(openCode)] + AsSeq(BunPart(bun));
    var bom := Assemble(npm, openCode, bun, release);
    DescribedShape(hex, s, xs);
    DescribedIsNpmPart(hex, s, xs);
    FixedIsFixedPart(openCode, bun);
    AssembledDescribesRelease(npm, openCode, bun, release);
    AssembledDependsOnParts(npm, openCode, bun, release);
    AssembledInOrder(npm, openCode, bun, release);
    PartsOfBill(hex, s, openCode, bun, release, bom, npm, rest);
  }

  method CreateReleaseSbom(
    hex: string -> Option<string>, s: Selection, openCode: OpenCode, bun: Option<BunCuration>, release: Release)
    returns (r: Option<Bom>)
    requires IsNamed(s)
    ensures r.Some? <==> AllDescribed(hex, s)
    ensures r.Some? ==> IsRelease(hex, s, openCode, bun, release, r.value)
    ensures r.Some? ==> IsBill(hex, s, openCode, bun, release, r.value)
  {
    var values := ListValues(s);
    var sorted := SortByPair(values);
    SortByPairSorts(s, values);
    DescribedTogether(hex, s, sorted);
    var npm := Describe(hex, sorted);
    if npm == None {
      return None;
    }
    r := Some(Assemble(npm.value, openCode, bun, release));
    AssembledIsBill(hex, s, openCode, bun, release, sorted);
  }
}
