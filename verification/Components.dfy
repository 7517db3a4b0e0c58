/** CycloneDX components as `scripts/release-sbom.ts` builds them and `scripts/release-licenses.ts` reads them. */
module Components {
  import opened Wrappers
  import opened Sorting
  import opened Lists
  import opened Texts

  datatype Kind = Application | Library

  datatype Property = Property(name: string, value: string)

  /** `sha512` is the one hash a component may carry; `licenses` are license expressions. */
  datatype Component = Component(
    kind: Kind,
    bomRef: string,
    name: string,
    version: string,
    purl: Option<string>,
    sha512: Option<string>,
    licenses: seq<string>,
    properties: Option<seq<Property>>)

  datatype Dependency = Dependency(ref: string, dependsOn: seq<string>)

  /** The parts of a bill of materials the release surfaces agree on. */
  datatype Bom = Bom(
    application: Component,
    properties: seq<Property>,
    components: seq<Component>,
    dependencies: seq<Dependency>)

  function BomRef(c: Component): string { c.bomRef }

  predicate IsNpm(c: Component) {
    c.purl.Some? && "pkg:npm/" <= c.purl.value
  }

  /** Exactly one license expression, with something in it. */
  predicate HasOneLicense(c: Component) {
    |c.licenses| == 1 && Trim(c.licenses[0]) != ""
  }

  function Refs(cs: seq<Component>): (r: seq<string>)
    ensures |r| == |cs|
    ensures forall i :: 0 <= i < |cs| ==> r[i] == cs[i].bomRef
  {
    if cs == [] then [] else [cs[0].bomRef] + Refs(cs[1..])
  }

  lemma RefsDistinct(cs: seq<Component>)
    requires DistinctKeys(BomRef, cs)
    ensures Distinct(Refs(cs))
  {
    forall i, j | 0 <= i < j < |cs|
      ensures Refs(cs)[i] != Refs(cs)[j]
    {
      assert BomRef(cs[i]) != BomRef(cs[j]);
    }
  }
}
